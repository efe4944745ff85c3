/** Rebuilding a store from its journal: every record is accepted and nothing is lost. */
module FindingReplay {
  import opened Common
  import opened Findings
  import opened FindingModel
  import opened FindingHistory

  /** The findings appended in order to `s`. */
  function AppendAll(check: Finding -> bool, s: Store, fs: seq<Finding>): Store
    decreases |fs|
  {
    if fs == [] then s
    else
      var before := AppendAll(check, s, fs[..|fs| - 1]);
      var f := fs[|fs| - 1];
      AppendStore(before, f, check(f))
  }

  /** The journal record of a logged update, read back when the clock shows `at`. */
  function RecordOf(u: Update, at: nat): Change {
    Change(u.findingId, u.from, u.to, u.actorScope, u.actorSubject, u.action, Some(at))
  }

  /** The updates replayed in order onto `s`, the k-th when the clock shows `clock(k)`. */
  function ReplayAll(s: Store, updates: seq<Update>, clock: nat -> nat): Store
    decreases |updates|
  {
    if updates == [] then s
    else
      var n := |updates| - 1;
      ReplayStore(ReplayAll(s, updates[..n], clock), RecordOf(updates[n], clock(n)))
  }

  // ---------------------------------------------------------------- the findings

  lemma {:induction false} CountOfPrefix(fs: seq<Finding>, n: nat, k: ScopeKey)
    requires n <= |fs|
    ensures Count(fs[..n], k) <= Count(fs, k)
  {
    if n == |fs| {
      assert fs[..n] == fs;
    } else {
      assert fs[..|fs| - 1][..n] == fs[..n];
      CountOfPrefix(fs[..|fs| - 1], n, k);
    }
  }

  ghost predicate RebuiltTo(check: Finding -> bool, s: Store, n: nat, r: Store) {
    && Indexed(check, r)
    && n <= |s.findings| && r.findings == s.findings[..n] && r.updates == []
    && r.scopeCapacity == s.scopeCapacity && r.globalCapacity == s.globalCapacity
  }

  /** The next finding is accepted by a store that holds exactly its predecessors. */
  lemma NextIsAccepted(check: Finding -> bool, s: Store, n: nat, r: Store)
    requires Indexed(check, s) && n < |s.findings| && RebuiltTo(check, s, n, r)
    ensures AppendResult(r, s.findings[n], true) == Ok(true)
  {
    var f := s.findings[n];
    CountOfPrefix(s.findings, n + 1, ScopeOf(f));
    assert s.findings[..n + 1][..n] == s.findings[..n];
  }

  lemma AddedIsRebuilt(s: Store, n: nat, r: Store)
    requires n < |s.findings| && r.findings == s.findings[..n]
    ensures Added(r, s.findings[n]).findings == s.findings[..n + 1]
  {
  }

  lemma NextIsRebuilt(check: Finding -> bool, s: Store, n: nat, r: Store)
    requires Indexed(check, s) && n < |s.findings| && RebuiltTo(check, s, n, r)
    ensures RebuiltTo(check, s, n + 1, AppendStore(r, s.findings[n], check(s.findings[n])))
  {
    NextIsAccepted(check, s, n, r);
    AddedIsRebuilt(s, n, r);
    AppendKeepsIndexed(check, r, s.findings[n]);
  }

  lemma {:induction false} FindingsAreRebuilt(check: Finding -> bool, s: Store, n: nat)
    requires Indexed(check, s) && n <= |s.findings|
    ensures RebuiltTo(check, s, n, AppendAll(check, Empty(s.scopeCapacity, s.globalCapacity), s.findings[..n]))
  {
    if n == 0 {
      EmptyIsSound(check, s.scopeCapacity, s.globalCapacity);
    } else {
      FindingsAreRebuilt(check, s, n - 1);
      assert s.findings[..n][..n - 1] == s.findings[..n - 1];
      NextIsRebuilt(check, s, n - 1, AppendAll(check, Empty(s.scopeCapacity, s.globalCapacity), s.findings[..n - 1]));
    }
  }

  /** The vector determines the three indexes. */
  lemma IndexesAreDetermined(check: Finding -> bool, a: Store, b: Store)
    requires Indexed(check, a) && Indexed(check, b) && a.findings == b.findings
    ensures a.byId == b.byId && a.byFingerprint == b.byFingerprint && a.scopeCounts == b.scopeCounts
  {
    IdsAreDetermined(a, b);
    FingerprintsAreDetermined(a, b);
    assert a.scopeCounts == b.scopeCounts by {
      forall k ensures k in a.scopeCounts <==> k in b.scopeCounts {
        assert CountOf(a.scopeCounts, k) == Count(a.findings, k) == CountOf(b.scopeCounts, k);
      }
      forall k | k in a.scopeCounts && k in b.scopeCounts ensures a.scopeCounts[k] == b.scopeCounts[k] {
        assert CountOf(a.scopeCounts, k) == Count(a.findings, k) == CountOf(b.scopeCounts, k);
      }
    }
  }

  lemma IdsAreDetermined(a: Store, b: Store)
    requires IdsIndexed(a) && IdsIndexed(b) && a.findings == b.findings
    ensures a.byId == b.byId
  {
    forall id ensures id in a.byId <==> id in b.byId {
      if id in a.byId {
        assert a.findings[a.byId[id]].findingId == id;
      }
      if id in b.byId {
        assert b.findings[b.byId[id]].findingId == id;
      }
    }
  }

  lemma FingerprintsAreDetermined(a: Store, b: Store)
    requires FingerprintsIndexed(a) && FingerprintsIndexed(b) && a.findings == b.findings
    ensures a.byFingerprint == b.byFingerprint
  {
    HoldsTheKeys(a, b);
    HoldsTheKeys(b, a);
  }

  lemma HoldsTheKeys(a: Store, b: Store)
    requires FingerprintsIndexed(a) && FingerprintsIndexed(b) && a.findings == b.findings
    ensures forall k :: k in a.byFingerprint ==> k in b.byFingerprint && b.byFingerprint[k] == a.byFingerprint[k]
  {
    forall k | k in a.byFingerprint
      ensures k in b.byFingerprint && b.byFingerprint[k] == a.byFingerprint[k]
    {
      var f := a.findings[a.byId[a.byFingerprint[k]]];
      assert f in b.findings && KeyOf(f) == k;
    }
  }

  // ------------------------------------------------------------------ the updates

  /** The same log apart from the time stamps. */
  ghost predicate SameLog(a: seq<Update>, b: seq<Update>) {
    |a| == |b| && forall k :: 0 <= k < |a| ==> a[k].(atMs := 0) == b[k].(atMs := 0)
  }

  lemma {:induction false} SameLogSameStatus(a: seq<Update>, b: seq<Update>, id: string)
    requires SameLog(a, b)
    ensures StatusIn(a, id) == StatusIn(b, id)
  {
    if a != [] {
      assert a[|a| - 1].(atMs := 0) == b[|a| - 1].(atMs := 0);
      SameLogSameStatus(a[..|a| - 1], b[..|b| - 1], id);
    }
  }

  lemma LogFits(check: Finding -> bool, s: Store)
    requires Sound(check, s)
    ensures |s.updates| <= MaxUpdates(s)
  {
    SumIsBounded(s.findings, s.updates);
  }

  /** `r` holds the findings of `s` and the first `n` entries of its log. */
  ghost predicate ReplayedTo(s: Store, n: nat, r: Store) {
    n <= |s.updates| && r == s.(updates := r.updates) && SameLog(r.updates, s.updates[..n])
  }

  lemma NextIsAllowed(check: Finding -> bool, s: Store, n: nat, r: Store, at: nat)
    requires Sound(check, s) && n < |s.updates| && ReplayedTo(s, n, r)
    ensures ReplayResult(r, RecordOf(s.updates[n], at)).Ok?
  {
    assert LegalAt(s, n);
    SameLogSameStatus(r.updates, s.updates[..n], s.updates[n].findingId);
    LogFits(check, s);
  }

  lemma NextIsReplayed(s: Store, n: nat, r: Store, at: nat)
    requires n < |s.updates| && ReplayedTo(s, n, r)
    requires ReplayResult(r, RecordOf(s.updates[n], at)).Ok?
    ensures ReplayedTo(s, n + 1, ReplayStore(r, RecordOf(s.updates[n], at)))
  {
  }

  lemma {:induction false} UpdatesAreReplayed(check: Finding -> bool, s: Store, r: Store, clock: nat -> nat, n: nat)
    requires Sound(check, s) && r == s.(updates := []) && n <= |s.updates|
    ensures ReplayedTo(s, n, ReplayAll(r, s.updates[..n], clock))
  {
    if n > 0 {
      UpdatesAreReplayed(check, s, r, clock, n - 1);
      assert s.updates[..n][..n - 1] == s.updates[..n - 1];
      var before := ReplayAll(r, s.updates[..n - 1], clock);
      NextIsAllowed(check, s, n - 1, before, clock(n - 1));
      NextIsReplayed(s, n - 1, before, clock(n - 1));
    }
  }

  // ------------------------------------------------------------------ the theorem

  function Reached(check: Finding -> bool, scopeCapacity: nat, globalCapacity: nat, ops: seq<Op>): Store {
    RunOps(check, Empty(scopeCapacity, globalCapacity), ops)
  }

  /** The store after the first `n` findings of `s` went into an empty one with its quotas. */
  function AfterFindings(check: Finding -> bool, s: Store, n: nat): Store
    requires n <= |s.findings|
  {
    AppendAll(check, Empty(s.scopeCapacity, s.globalCapacity), s.findings[..n])
  }

  /** The store after all findings and then the first `n` updates of `s`. */
  function AfterUpdates(check: Finding -> bool, s: Store, clock: nat -> nat, n: nat): Store
    requires n <= |s.updates|
  {
    ReplayAll(AfterFindings(check, s, |s.findings|), s.updates[..n], clock)
  }

  lemma SoundIsRebuilt(check: Finding -> bool, s: Store)
    requires Sound(check, s)
    ensures AfterFindings(check, s, |s.findings|) == s.(updates := [])
  {
    var r := AfterFindings(check, s, |s.findings|);
    FindingsAreRebuilt(check, s, |s.findings|);
    assert r.findings == s.findings;
    IndexesAreDetermined(check, r, s);
  }

  /**
   * Replaying the journal of any reachable store into an empty one with its
   * quotas gives back its findings, its three indexes, its log apart from time
   * stamps, and the status of every finding.
   */
  lemma {:induction false} ReplayRestoresTheStore(
    check: Finding -> bool, scopeCapacity: nat, globalCapacity: nat, ops: seq<Op>, clock: nat -> nat, id: string)
    ensures
      var s := Reached(check, scopeCapacity, globalCapacity, ops);
      var r := AfterUpdates(check, s, clock, |s.updates|);
      && r == s.(updates := r.updates)
      && SameLog(r.updates, s.updates)
      && StatusIn(r.updates, id) == StatusIn(s.updates, id)
  {
    var s := Reached(check, scopeCapacity, globalCapacity, ops);
    EveryStoreIsSound(check, scopeCapacity, globalCapacity, ops);
    SoundIsRebuilt(check, s);
    UpdatesAreReplayed(check, s, AfterFindings(check, s, |s.findings|), clock, |s.updates|);
    assert s.updates[..|s.updates|] == s.updates;
    SameLogSameStatus(AfterUpdates(check, s, clock, |s.updates|).updates, s.updates, id);
  }

  /** No journal record of a reachable store is ever refused or taken for a repeat. */
  lemma {:induction false} EveryRecordIsAccepted(
    check: Finding -> bool, scopeCapacity: nat, globalCapacity: nat, ops: seq<Op>, clock: nat -> nat, n: nat)
    ensures
      var s := Reached(check, scopeCapacity, globalCapacity, ops);
      && (n < |s.findings| ==>
            AppendResult(AfterFindings(check, s, n), s.findings[n], check(s.findings[n])) == Ok(true))
      && (n < |s.updates| ==>
            ReplayResult(AfterUpdates(check, s, clock, n), RecordOf(s.updates[n], clock(n))).Ok?)
  {
    var s := Reached(check, scopeCapacity, globalCapacity, ops);
    EveryStoreIsSound(check, scopeCapacity, globalCapacity, ops);
    if n < |s.findings| {
      FindingsAreRebuilt(check, s, n);
      NextIsAccepted(check, s, n, AfterFindings(check, s, n));
    }
    if n < |s.updates| {
      SoundIsRebuilt(check, s);
      UpdatesAreReplayed(check, s, AfterFindings(check, s, |s.findings|), clock, n);
      NextIsAllowed(check, s, n, AfterUpdates(check, s, clock, n), clock(n));
    }
  }
}
