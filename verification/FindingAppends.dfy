/** Exactly which answer an append gets, read off the stored findings themselves. */
module FindingAppends {
  import opened Common
  import opened Findings
  import opened FindingModel
  import opened FindingHistory

  ghost predicate IdStored(s: Store, f: Finding) {
    exists i :: 0 <= i < |s.findings| && s.findings[i].findingId == f.findingId
  }

  /** A stored finding has this id and is not this finding. */
  ghost predicate IdTaken(s: Store, f: Finding) {
    exists i :: 0 <= i < |s.findings| && s.findings[i].findingId == f.findingId && s.findings[i] != f
  }

  predicate SameScope(g: Finding, f: Finding) {
    g.workspaceId == f.workspaceId && g.namespaceId == f.namespaceId
  }

  predicate Twins(g: Finding, hash: string -> string, f: Finding) {
    SameScope(g, f) && hash(Preimage(g)) == hash(Preimage(f))
  }

  /** A stored finding of the same scope has the same hash. */
  ghost predicate TwinStored(s: Store, hash: string -> string, f: Finding) {
    exists i :: 0 <= i < |s.findings| && Twins(s.findings[i], hash, f)
  }

  /** A stored finding of the same scope has the same hashed bytes. */
  ghost predicate ContentStored(s: Store, f: Finding) {
    exists i :: 0 <= i < |s.findings| && SameScope(s.findings[i], f) && Preimage(s.findings[i]) == Preimage(f)
  }

  ghost predicate HasRoom(s: Store, f: Finding) {
    |s.findings| < s.globalCapacity
    && Count(s.findings, ScopeKey(f.workspaceId, f.namespaceId)) < s.scopeCapacity
  }

  /** The six answers, each with its exact condition. */
  ghost predicate AnsweredExactly(s: Store, hash: string -> string, f: Finding, r: Result<bool, StoreError>) {
    && (r == Err(InvalidField) <==> !IsValid(f, hash))
    && (r == Err(DuplicateId) <==> IsValid(f, hash) && IdTaken(s, f))
    && (r == Ok(false) <==> IsValid(f, hash) && (f in s.findings || (!IdStored(s, f) && ContentStored(s, f))))
    && (r == Err(FingerprintConflict) <==>
          IsValid(f, hash) && !IdStored(s, f) && TwinStored(s, hash, f) && !ContentStored(s, f))
    && (r == Err(Capacity) <==>
          IsValid(f, hash) && !IdStored(s, f) && !TwinStored(s, hash, f) && !HasRoom(s, f))
    && (r == Ok(true) <==>
          IsValid(f, hash) && !IdStored(s, f) && !TwinStored(s, hash, f) && HasRoom(s, f))
  }

  lemma KnownIdIsStored(s: Store, f: Finding)
    requires IdsIndexed(s)
    ensures f.findingId in s.byId <==> IdStored(s, f)
    ensures f.findingId in s.byId ==> (s.findings[s.byId[f.findingId]] == f <==> f in s.findings)
    ensures f.findingId in s.byId ==> (s.findings[s.byId[f.findingId]] == f <==> !IdTaken(s, f))
    ensures f.findingId !in s.byId ==> f !in s.findings && !IdTaken(s, f)
  {
    if f.findingId in s.byId {
      var i := s.byId[f.findingId];
      assert s.findings[i].findingId == f.findingId;
      forall j | 0 <= j < |s.findings| && s.findings[j].findingId == f.findingId ensures j == i {
      }
    }
  }

  lemma TwinsShareTheKey(g: Finding, hash: string -> string, f: Finding)
    requires IsValid(g, hash) && IsValid(f, hash)
    ensures KeyOf(g) == KeyOf(f) <==> Twins(g, hash, f)
  {
  }

  lemma KnownKeyHasATwin(s: Store, hash: string -> string, f: Finding)
    requires IdsIndexed(s) && FingerprintsIndexed(s) && AllChecked(Validator(hash), s.findings) && IsValid(f, hash)
    ensures KeyOf(f) in s.byFingerprint <==> TwinStored(s, hash, f)
    ensures !TwinStored(s, hash, f) ==> !ContentStored(s, f)
  {
    forall i | 0 <= i < |s.findings|
      ensures KeyOf(s.findings[i]) == KeyOf(f) <==> Twins(s.findings[i], hash, f)
    {
      assert Validator(hash)(s.findings[i]);
      TwinsShareTheKey(s.findings[i], hash, f);
    }
    if KeyOf(f) in s.byFingerprint {
      var i := s.byId[s.byFingerprint[KeyOf(f)]];
      assert Twins(s.findings[i], hash, f);
    }
    if ContentStored(s, f) {
      var i :| 0 <= i < |s.findings| && SameScope(s.findings[i], f) && Preimage(s.findings[i]) == Preimage(f);
      assert Twins(s.findings[i], hash, f);
    }
  }

  /** The twin found through the index decides between a repeat and a conflict. */
  lemma TwinDecides(s: Store, hash: string -> string, f: Finding)
    requires IdsIndexed(s) && FingerprintsIndexed(s) && AllChecked(Validator(hash), s.findings) && IsValid(f, hash)
    requires KeyOf(f) in s.byFingerprint
    ensures LogicallyEqual(s.findings[s.byId[s.byFingerprint[KeyOf(f)]]], f) <==> ContentStored(s, f)
  {
    StoredTwinDecides(s, hash, f);
    var i := s.byId[s.byFingerprint[KeyOf(f)]];
    assert Validator(hash)(s.findings[i]);
    TwinsShareTheKey(s.findings[i], hash, f);
    if ContentStored(s, f) {
      var j :| 0 <= j < |s.findings| && SameScope(s.findings[j], f) && Preimage(s.findings[j]) == Preimage(f);
      assert Validator(hash)(s.findings[j]);
      TwinsShareTheKey(s.findings[j], hash, f);
      assert j == i;
      PreimageDetermines(s.findings[i], f);
    } else {
      assert Preimage(s.findings[i]) != Preimage(f);
      assert CollidesAt(s.findings[i], hash, f);
    }
  }

  /** The answer as a decision over six facts. */
  function Decide(valid: bool, known: bool, same: bool, keyed: bool, equal: bool, room: bool)
    : Result<bool, StoreError>
  {
    if !valid then Err(InvalidField)
    else if known then if same then Ok(false) else Err(DuplicateId)
    else if keyed then if equal then Ok(false) else Err(FingerprintConflict)
    else if room then Ok(true) else Err(Capacity)
  }

  predicate SameAsKnown(s: Store, f: Finding) {
    f.findingId in s.byId && s.byId[f.findingId] < |s.findings| && s.findings[s.byId[f.findingId]] == f
  }

  predicate EqualToTwin(s: Store, f: Finding) {
    && KeyOf(f) in s.byFingerprint && s.byFingerprint[KeyOf(f)] in s.byId
    && s.byId[s.byFingerprint[KeyOf(f)]] < |s.findings|
    && LogicallyEqual(s.findings[s.byId[s.byFingerprint[KeyOf(f)]]], f)
  }

  lemma ResultIsDecided(s: Store, f: Finding, valid: bool)
    ensures AppendResult(s, f, valid) ==
            Decide(valid, f.findingId in s.byId, SameAsKnown(s, f), KeyOf(f) in s.byFingerprint, EqualToTwin(s, f),
                   |s.findings| < s.globalCapacity && CountOf(s.scopeCounts, ScopeOf(f)) < s.scopeCapacity)
  {
  }

  lemma DecidedExactly(
    s: Store, hash: string -> string, f: Finding, known: bool, same: bool, keyed: bool, equal: bool)
    requires known <==> IdStored(s, f)
    requires known ==> (same <==> f in s.findings) && (same <==> !IdTaken(s, f))
    requires !known ==> f !in s.findings && !IdTaken(s, f)
    requires IsValid(f, hash) ==> (keyed <==> TwinStored(s, hash, f))
    requires IsValid(f, hash) ==> (keyed ==> (equal <==> ContentStored(s, f)))
    requires IsValid(f, hash) ==> (!keyed ==> !ContentStored(s, f))
    ensures AnsweredExactly(s, hash, f, Decide(IsValid(f, hash), known, same, keyed, equal, HasRoom(s, f)))
  {
  }

  lemma RoomIsCounted(s: Store, f: Finding)
    requires ScopesCounted(s)
    ensures HasRoom(s, f) <==>
            |s.findings| < s.globalCapacity && CountOf(s.scopeCounts, ScopeOf(f)) < s.scopeCapacity
  {
  }

  lemma AnsweredExactlyInSoundStore(s: Store, hash: string -> string, f: Finding)
    requires Sound(Validator(hash), s)
    ensures AnsweredExactly(s, hash, f, AppendResult(s, f, IsValid(f, hash)))
  {
    ResultIsDecided(s, f, IsValid(f, hash));
    RoomIsCounted(s, f);
    KnownIdIsStored(s, f);
    if IsValid(f, hash) {
      KnownKeyHasATwin(s, hash, f);
      if KeyOf(f) in s.byFingerprint {
        TwinDecides(s, hash, f);
      }
    }
    DecidedExactly(s, hash, f, f.findingId in s.byId, SameAsKnown(s, f), KeyOf(f) in s.byFingerprint,
                   EqualToTwin(s, f));
  }

  lemma {:induction false} QuotasNeverChange(check: Finding -> bool, s: Store, ops: seq<Op>)
    ensures RunOps(check, s, ops).scopeCapacity == s.scopeCapacity
    ensures RunOps(check, s, ops).globalCapacity == s.globalCapacity
    decreases |ops|
  {
    if ops != [] {
      QuotasNeverChange(check, s, ops[..|ops| - 1]);
    }
  }

  /**
   * In every reachable store an append is answered exactly by what is stored: a
   * duplicate id, a repeat, a conflict, no room, or a new finding.
   */
  lemma {:induction false} AppendAnswersExactly(
    hash: string -> string, scopeCapacity: nat, globalCapacity: nat, ops: seq<Op>, f: Finding)
    ensures var s := RunOps(Validator(hash), Empty(scopeCapacity, globalCapacity), ops);
            && s.scopeCapacity == scopeCapacity && s.globalCapacity == globalCapacity
            && AnsweredExactly(s, hash, f, AppendResult(s, f, IsValid(f, hash)))
  {
    QuotasNeverChange(Validator(hash), Empty(scopeCapacity, globalCapacity), ops);
    EveryStoreIsSound(Validator(hash), scopeCapacity, globalCapacity, ops);
    AnsweredExactlyInSoundStore(RunOps(Validator(hash), Empty(scopeCapacity, globalCapacity), ops), hash, f);
  }
}
