/**
 * What every reachable finding store keeps: indexes that agree with the
 * vector, quotas, a legal status log that can never fill up, and a fingerprint
 * conflict only where the hash itself collided.
 */
module FindingHistory {
  import opened Common
  import opened Findings
  import opened FindingModel

  /** One call on a store; `check` below stands for validation. */
  datatype Op =
    | AppendOp(f: Finding)
    | TransitionOp(c: Change, subject: Option<string>, allows: string -> bool)
    | ReplayOp(c: Change)

  function ApplyOp(check: Finding -> bool, s: Store, op: Op): Store {
    match op
    case AppendOp(f) => AppendStore(s, f, check(f))
    case ReplayOp(c) => ReplayStore(s, c)
    case TransitionOp(c, subject, allows) =>
      if TransitionResult(s, c, subject, allows).Ok? && subject.Some?
      then ReplayStore(s, c.(actorSubject := subject.value)) else s
  }

  function RunOps(check: Finding -> bool, s: Store, ops: seq<Op>): Store
    decreases |ops|
  {
    if ops == [] then s else ApplyOp(check, RunOps(check, s, ops[..|ops| - 1]), ops[|ops| - 1])
  }

  // ------------------------------------------------------------------ indexes

  predicate InScope(f: Finding, k: ScopeKey) {
    f.workspaceId == k.workspaceId && f.namespaceId == k.namespaceId
  }

  function Count(fs: seq<Finding>, k: ScopeKey): nat {
    if fs == [] then 0 else Count(fs[..|fs| - 1], k) + (if InScope(fs[|fs| - 1], k) then 1 else 0)
  }

  ghost predicate IdsIndexed(s: Store) {
    && (forall i :: 0 <= i < |s.findings| ==>
          s.findings[i].findingId in s.byId && s.byId[s.findings[i].findingId] == i)
    && (forall id :: id in s.byId ==> s.byId[id] < |s.findings| && s.findings[s.byId[id]].findingId == id)
  }

  ghost predicate FingerprintsIndexed(s: Store) {
    && (forall i :: 0 <= i < |s.findings| ==>
          KeyOf(s.findings[i]) in s.byFingerprint
          && s.byFingerprint[KeyOf(s.findings[i])] == s.findings[i].findingId)
    && (forall k :: k in s.byFingerprint ==>
          s.byFingerprint[k] in s.byId && s.byId[s.byFingerprint[k]] < |s.findings|
          && KeyOf(s.findings[s.byId[s.byFingerprint[k]]]) == k)
  }

  ghost predicate ScopesCounted(s: Store) {
    && (forall k :: CountOf(s.scopeCounts, k) == Count(s.findings, k))
    && (forall k :: k in s.scopeCounts ==> s.scopeCounts[k] > 0)
  }

  ghost predicate QuotasHold(s: Store) {
    |s.findings| <= s.globalCapacity && forall k :: Count(s.findings, k) <= s.scopeCapacity
  }

  ghost predicate AllChecked(check: Finding -> bool, fs: seq<Finding>) {
    forall i :: 0 <= i < |fs| ==> check(fs[i])
  }

  ghost predicate Indexed(check: Finding -> bool, s: Store) {
    IdsIndexed(s) && FingerprintsIndexed(s) && ScopesCounted(s) && QuotasHold(s) && AllChecked(check, s.findings)
  }

  lemma CountOfOneMore(fs: seq<Finding>, f: Finding, k: ScopeKey)
    ensures Count(fs + [f], k) == Count(fs, k) + (if ScopeOf(f) == k then 1 else 0)
  {
    assert (fs + [f])[..|fs|] == fs;
  }

  lemma AddedCounts(s: Store, f: Finding)
    requires ScopesCounted(s)
    ensures ScopesCounted(Added(s, f))
  {
    forall k ensures CountOf(Added(s, f).scopeCounts, k) == Count(Added(s, f).findings, k) {
      CountOfOneMore(s.findings, f, k);
    }
  }

  lemma AddedIds(s: Store, f: Finding)
    requires IdsIndexed(s) && f.findingId !in s.byId
    ensures IdsIndexed(Added(s, f))
  {
  }

  lemma AddedFingerprints(s: Store, f: Finding)
    requires IdsIndexed(s) && FingerprintsIndexed(s)
    requires f.findingId !in s.byId && KeyOf(f) !in s.byFingerprint
    ensures FingerprintsIndexed(Added(s, f))
  {
    var t := Added(s, f);
    forall i | 0 <= i < |t.findings|
      ensures KeyOf(t.findings[i]) in t.byFingerprint
      ensures t.byFingerprint[KeyOf(t.findings[i])] == t.findings[i].findingId
    {
      if i < |s.findings| {
        assert t.findings[i] == s.findings[i] && KeyOf(s.findings[i]) in s.byFingerprint;
      }
    }
  }

  lemma AddedQuotas(s: Store, f: Finding)
    requires ScopesCounted(s) && QuotasHold(s) && AppendResult(s, f, true) == Ok(true)
    ensures QuotasHold(Added(s, f))
  {
    forall k ensures Count(Added(s, f).findings, k) <= s.scopeCapacity {
      CountOfOneMore(s.findings, f, k);
    }
  }

  lemma AppendKeepsIndexed(check: Finding -> bool, s: Store, f: Finding)
    requires Indexed(check, s)
    ensures Indexed(check, AppendStore(s, f, check(f)))
  {
    if AppendResult(s, f, check(f)) == Ok(true) {
      AddedIds(s, f);
      AddedFingerprints(s, f);
      AddedCounts(s, f);
      AddedQuotas(s, f);
    }
  }

  // ------------------------------------------------------------- the status log

  /** Update `n` was allowed when it was logged. */
  ghost predicate LegalAt(s: Store, n: nat)
    requires n < |s.updates|
  {
    var u := s.updates[n];
    && u.actorSubject != "" && ValidActorScope(u.actorScope)
    && Checked(s.(updates := s.updates[..n]),
               Change(u.findingId, u.from, u.to, u.actorScope, u.actorSubject, u.action, None)).Ok?
  }

  ghost predicate LegalLog(s: Store) {
    forall n: nat :: n < |s.updates| ==> LegalAt(s, n)
  }

  /** The summed status ranks of the first `n` findings. */
  function RankSum(fs: seq<Finding>, updates: seq<Update>): nat {
    if fs == [] then 0
    else RankSum(fs[..|fs| - 1], updates) + Rank(StatusIn(updates, fs[|fs| - 1].findingId))
  }

  ghost predicate DistinctIds(fs: seq<Finding>) {
    forall i, j :: 0 <= i < j < |fs| ==> fs[i].findingId != fs[j].findingId
  }

  lemma StatusAfter(updates: seq<Update>, u: Update, id: string)
    ensures StatusIn(updates + [u], id) == if u.findingId == id then u.to else StatusIn(updates, id)
  {
    assert (updates + [u])[..|updates|] == updates;
  }

  /** Logging one legal change raises the sum by at least one. */
  lemma {:induction false} ChangeRaisesSum(fs: seq<Finding>, updates: seq<Update>, u: Update, i: nat)
    requires DistinctIds(fs) && i < |fs| && fs[i].findingId == u.findingId
    requires u.from == StatusIn(updates, u.findingId) && AllowedTransition(u.from, u.to)
    ensures RankSum(fs, updates + [u]) >= RankSum(fs, updates) + 1
  {
    var init, last := fs[..|fs| - 1], fs[|fs| - 1];
    StatusAfter(updates, u, last.findingId);
    if i == |fs| - 1 {
      OthersKeepSum(init, updates, u);
    } else {
      assert last.findingId != u.findingId;
      ChangeRaisesSum(init, updates, u, i);
    }
  }

  lemma {:induction false} OthersKeepSum(fs: seq<Finding>, updates: seq<Update>, u: Update)
    requires forall i :: 0 <= i < |fs| ==> fs[i].findingId != u.findingId
    ensures RankSum(fs, updates + [u]) == RankSum(fs, updates)
  {
    if fs != [] {
      OthersKeepSum(fs[..|fs| - 1], updates, u);
      StatusAfter(updates, u, fs[|fs| - 1].findingId);
    }
  }

  lemma {:induction false} SumIsBounded(fs: seq<Finding>, updates: seq<Update>)
    ensures RankSum(fs, updates) <= 3 * |fs|
  {
    if fs != [] {
      SumIsBounded(fs[..|fs| - 1], updates);
    }
  }

  /** A finding that can still move keeps the sum below its bound. */
  lemma {:induction false} MovableLeavesRoom(fs: seq<Finding>, updates: seq<Update>, i: nat)
    requires i < |fs| && Rank(StatusIn(updates, fs[i].findingId)) <= 2
    ensures RankSum(fs, updates) <= 3 * |fs| - 1
  {
    if i == |fs| - 1 {
      SumIsBounded(fs[..|fs| - 1], updates);
    } else {
      MovableLeavesRoom(fs[..|fs| - 1], updates, i);
    }
  }

  ghost predicate Sound(check: Finding -> bool, s: Store) {
    && Indexed(check, s)
    && LegalLog(s)
    && |s.updates| <= RankSum(s.findings, s.updates)
  }

  lemma IndexedIdsDiffer(s: Store)
    requires IdsIndexed(s)
    ensures DistinctIds(s.findings)
  {
  }

  /** A legal log entry stays legal when findings or entries are added. */
  lemma LegalStaysLegal(s: Store, t: Store, n: nat)
    requires IdsIndexed(s) && IdsIndexed(t) && n < |s.updates| && LegalAt(s, n)
    requires s.findings <= t.findings && s.updates <= t.updates
    ensures LegalAt(t, n)
  {
    assert t.updates[..n] == s.updates[..n] && t.updates[n] == s.updates[n];
    var id := s.updates[n].findingId;
    var i := s.byId[id];
    assert t.findings[i] == s.findings[i] && t.findings[i].findingId == id;
  }

  lemma AppendKeepsSound(check: Finding -> bool, s: Store, f: Finding)
    requires Sound(check, s)
    ensures Sound(check, AppendStore(s, f, check(f)))
  {
    AppendKeepsIndexed(check, s, f);
    var t := AppendStore(s, f, check(f));
    forall n: nat | n < |t.updates| ensures LegalAt(t, n) {
      assert LegalAt(s, n);
      LegalStaysLegal(s, t, n);
    }
    if t != s {
      assert t.findings[..|s.findings|] == s.findings;
    }
  }

  lemma ChangeKeepsSum(s: Store, c: Change, atMs: nat)
    requires IdsIndexed(s) && Checked(s, c).Ok?
    requires |s.updates| <= RankSum(s.findings, s.updates)
    ensures |s.updates| + 1 <= RankSum(s.findings, s.updates + [Logged(c, atMs)])
  {
    IndexedIdsDiffer(s);
    ChangeRaisesSum(s.findings, s.updates, Logged(c, atMs), s.byId[c.findingId]);
  }

  lemma ChangeIsLegal(s: Store, c: Change, atMs: nat)
    requires Checked(s, c).Ok? && c.actorSubject != "" && ValidActorScope(c.actorScope)
    ensures var t := s.(updates := s.updates + [Logged(c, atMs)]); LegalAt(t, |s.updates|)
  {
    var t := s.(updates := s.updates + [Logged(c, atMs)]);
    assert t.updates[..|s.updates|] == s.updates;
  }

  lemma ReplayKeepsSound(check: Finding -> bool, s: Store, c: Change)
    requires Sound(check, s)
    ensures Sound(check, ReplayStore(s, c))
  {
    var t := ReplayStore(s, c);
    if t != s {
      ChangeKeepsSum(s, c, c.now.value);
      ChangeIsLegal(s, c, c.now.value);
      forall n: nat | n < |t.updates| ensures LegalAt(t, n) {
        if n < |s.updates| {
          assert LegalAt(s, n);
          LegalStaysLegal(s, t, n);
        }
      }
    }
  }

  lemma StepKeepsSound(check: Finding -> bool, s: Store, op: Op)
    requires Sound(check, s)
    ensures Sound(check, ApplyOp(check, s, op))
  {
    match op
    case AppendOp(f) => AppendKeepsSound(check, s, f);
    case ReplayOp(c) => ReplayKeepsSound(check, s, c);
    case TransitionOp(c, subject, allows) =>
      if subject.Some? {
        ReplayKeepsSound(check, s, c.(actorSubject := subject.value));
      }
  }

  lemma EmptyIsSound(check: Finding -> bool, scopeCapacity: nat, globalCapacity: nat)
    ensures Sound(check, Empty(scopeCapacity, globalCapacity))
  {
  }

  /** Every reachable store is sound: its indexes, its quotas and its log. */
  lemma {:induction false} EveryStoreIsSound(
    check: Finding -> bool, scopeCapacity: nat, globalCapacity: nat, ops: seq<Op>)
    ensures Sound(check, RunOps(check, Empty(scopeCapacity, globalCapacity), ops))
    decreases |ops|
  {
    if ops == [] {
      EmptyIsSound(check, scopeCapacity, globalCapacity);
    } else {
      EveryStoreIsSound(check, scopeCapacity, globalCapacity, ops[..|ops| - 1]);
      StepKeepsSound(check, RunOps(check, Empty(scopeCapacity, globalCapacity), ops[..|ops| - 1]), ops[|ops| - 1]);
    }
  }

  /**
   * Every logged change of a reachable store names a stored finding, was made
   * in that finding's own scope by a named subject, started from the status the
   * finding had then, moved it strictly forward, and carries an action when it
   * contains or resolves.
   */
  lemma {:induction false} EveryUpdateIsLegal(
    check: Finding -> bool, scopeCapacity: nat, globalCapacity: nat, ops: seq<Op>, n: nat)
    requires n < |RunOps(check, Empty(scopeCapacity, globalCapacity), ops).updates|
    ensures var s := RunOps(check, Empty(scopeCapacity, globalCapacity), ops);
            var u := s.updates[n];
            && (exists i :: 0 <= i < |s.findings| && s.findings[i].findingId == u.findingId
                            && u.actorScope == s.findings[i].workspaceId + "/" + s.findings[i].namespaceId)
            && u.actorSubject != ""
            && u.from == StatusIn(s.updates[..n], u.findingId)
            && Rank(u.from) < Rank(u.to)
            && (u.to.Contained? || u.to.Resolved? ==> u.action.Some?)
  {
    var s := RunOps(check, Empty(scopeCapacity, globalCapacity), ops);
    EveryStoreIsSound(check, scopeCapacity, globalCapacity, ops);
    assert LegalAt(s, n);
    var i := s.byId[s.updates[n].findingId];
    assert s.findings[i].findingId == s.updates[n].findingId;
  }

  lemma AllowedChangeHasRoom(check: Finding -> bool, s: Store, c: Change)
    requires Sound(check, s) && Checked(s, c).Ok?
    ensures |s.updates| < MaxUpdates(s)
  {
    MovableLeavesRoom(s.findings, s.updates, s.byId[c.findingId]);
  }

  lemma NeverFull(check: Finding -> bool, s: Store, c: Change)
    requires Sound(check, s)
    ensures InternalResult(s, c) != Err(Capacity)
  {
    if Checked(s, c).Ok? {
      AllowedChangeHasRoom(check, s, c);
    }
  }

  /** The log's capacity refusal is unreachable: an otherwise allowed change always finds room. */
  lemma {:induction false} LogNeverFills(
    check: Finding -> bool, scopeCapacity: nat, globalCapacity: nat, ops: seq<Op>, c: Change)
    ensures InternalResult(RunOps(check, Empty(scopeCapacity, globalCapacity), ops), c) != Err(Capacity)
  {
    EveryStoreIsSound(check, scopeCapacity, globalCapacity, ops);
    NeverFull(check, RunOps(check, Empty(scopeCapacity, globalCapacity), ops), c);
  }

  // ------------------------------------------------------------- reachable stores

  /** Validation under one hash. */
  function Validator(hash: string -> string): Finding -> bool {
    (f: Finding) => IsValid(f, hash)
  }

  /** Some calls on a fresh store with these quotas lead here. */
  ghost predicate Reachable(hash: string -> string, s: Store) {
    exists ops :: s == RunOps(Validator(hash), Empty(s.scopeCapacity, s.globalCapacity), ops)
  }

  lemma ReachableIsSound(hash: string -> string, s: Store)
    requires Reachable(hash, s)
    ensures Sound(Validator(hash), s)
  {
    var ops :| s == RunOps(Validator(hash), Empty(s.scopeCapacity, s.globalCapacity), ops);
    EveryStoreIsSound(Validator(hash), s.scopeCapacity, s.globalCapacity, ops);
  }

  lemma FreshIsReachable(hash: string -> string, scopeCapacity: nat, globalCapacity: nat)
    ensures Reachable(hash, Empty(scopeCapacity, globalCapacity))
  {
    assert RunOps(Validator(hash), Empty(scopeCapacity, globalCapacity), []) == Empty(scopeCapacity, globalCapacity);
  }

  lemma NextIsReachable(hash: string -> string, s: Store, op: Op)
    requires Reachable(hash, s)
    ensures Reachable(hash, ApplyOp(Validator(hash), s, op))
  {
    var empty := Empty(s.scopeCapacity, s.globalCapacity);
    var ops :| s == RunOps(Validator(hash), empty, ops);
    assert (ops + [op])[..|ops|] == ops;
    assert RunOps(Validator(hash), empty, ops + [op]) == ApplyOp(Validator(hash), s, op);
  }

  // -------------------------------------------------------- fingerprint conflicts

  /** Some stored finding of the same scope has other hashed bytes with the same hash. */
  ghost predicate Collides(s: Store, hash: string -> string, f: Finding) {
    exists i :: 0 <= i < |s.findings| && CollidesAt(s.findings[i], hash, f)
  }

  predicate CollidesAt(g: Finding, hash: string -> string, f: Finding) {
    ScopeOf(g) == ScopeOf(f) && Preimage(g) != Preimage(f) && hash(Preimage(g)) == hash(Preimage(f))
  }

  /**
   * In every reachable store, and for any hash at all, a fingerprint conflict
   * is reported exactly when a valid finding with a new id meets a stored one
   * whose different content hashed to the same value.
   */
  lemma {:induction false} ConflictMeansCollision(
    hash: string -> string, scopeCapacity: nat, globalCapacity: nat, ops: seq<Op>, f: Finding)
    ensures var s := RunOps(Validator(hash), Empty(scopeCapacity, globalCapacity), ops);
            AppendResult(s, f, IsValid(f, hash)) == Err(FingerprintConflict)
            <==> IsValid(f, hash) && f.findingId !in s.byId && Collides(s, hash, f)
  {
    EveryStoreIsSound(Validator(hash), scopeCapacity, globalCapacity, ops);
    ConflictInSoundStore(RunOps(Validator(hash), Empty(scopeCapacity, globalCapacity), ops), hash, f);
  }

  lemma ConflictInSoundStore(s: Store, hash: string -> string, f: Finding)
    requires Sound(Validator(hash), s)
    ensures AppendResult(s, f, IsValid(f, hash)) == Err(FingerprintConflict)
            <==> IsValid(f, hash) && f.findingId !in s.byId && Collides(s, hash, f)
  {
    if IsValid(f, hash) && f.findingId !in s.byId {
      if KeyOf(f) in s.byFingerprint {
        StoredTwinDecides(s, hash, f);
      } else {
        NoTwinNoCollision(s, hash, f);
      }
    }
  }

  /** Valid findings share a key exactly when they share a scope and a hash. */
  lemma ValidKeysAgree(g: Finding, hash: string -> string, f: Finding)
    requires IsValid(g, hash) && IsValid(f, hash)
    ensures KeyOf(g) == KeyOf(f) <==> ScopeOf(g) == ScopeOf(f) && hash(Preimage(g)) == hash(Preimage(f))
  {
  }

  lemma NoTwinNoCollision(s: Store, hash: string -> string, f: Finding)
    requires FingerprintsIndexed(s) && KeyOf(f) !in s.byFingerprint
    requires IsValid(f, hash) && AllChecked(Validator(hash), s.findings)
    ensures !Collides(s, hash, f)
  {
    forall i | 0 <= i < |s.findings| ensures !CollidesAt(s.findings[i], hash, f) {
      ValidKeysAgree(s.findings[i], hash, f);
    }
  }

  lemma StoredTwinDecides(s: Store, hash: string -> string, f: Finding)
    requires IdsIndexed(s) && FingerprintsIndexed(s) && KeyOf(f) in s.byFingerprint
    requires IsValid(f, hash) && AllChecked(Validator(hash), s.findings)
    ensures var twin := s.findings[s.byId[s.byFingerprint[KeyOf(f)]]];
            LogicallyEqual(twin, f) <==> !Collides(s, hash, f)
  {
    var i := s.byId[s.byFingerprint[KeyOf(f)]];
    var twin := s.findings[i];
    ValidKeysAgree(twin, hash, f);
    if LogicallyEqual(twin, f) {
      EqualFindingsHashAlike(twin, f);
      forall j | 0 <= j < |s.findings| ensures !CollidesAt(s.findings[j], hash, f) {
        ValidKeysAgree(s.findings[j], hash, f);
      }
    } else if Preimage(twin) == Preimage(f) {
      PreimageDetermines(twin, f);
    } else {
      assert CollidesAt(s.findings[i], hash, f);
    }
  }

  lemma EqualFindingsHashAlike(a: Finding, b: Finding)
    requires LogicallyEqual(a, b)
    ensures Preimage(a) == Preimage(b)
  {
  }
}
