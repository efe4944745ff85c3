/**
 * The inbox as the gateway calls it: one object whose methods run one
 * transaction each against the table.
 *
 * `Claim` keeps the batched cursor scan of the original. Its contract is the
 * simple form, so the scan is proved to be a refinement of "the first `limit`
 * claimable authorised rows in sequence order".
 */
module InboxStore {
  import opened Common
  import opened Inbox

  /** Resuming the scan at its own k-th hit continues right after that hit. */
  lemma {:induction false} ScanResumes(rows: Table, q: Poll, locked: set<nat>, cursor: nat, bound: nat, k: nat)
    requires k < |Scan(rows, q, locked, cursor, bound)|
    ensures var all := Scan(rows, q, locked, cursor, bound);
            Scan(rows, q, locked, all[k], bound) == all[k + 1..]
    decreases bound - cursor
  {
    var all := Scan(rows, q, locked, cursor, bound);
    var rest := Scan(rows, q, locked, cursor + 1, bound);
    if !Claimable(rows, q, locked, cursor + 1) {
      assert all == rest;
      ScanResumes(rows, q, locked, cursor + 1, bound, k);
    } else {
      assert all == [cursor + 1] + rest;
      if k > 0 {
        assert all[k] == rest[k - 1];
        ScanResumes(rows, q, locked, cursor + 1, bound, k - 1);
      }
    }
  }

  /** The scan is strictly ascending and misses nothing claimable above the cursor. */
  lemma {:induction false} ScanIsCompleteAndAscending(
    rows: Table, q: Poll, locked: set<nat>, cursor: nat, bound: nat)
    ensures var all := Scan(rows, q, locked, cursor, bound);
            && Ascending(all)
            && (forall s :: cursor < s < bound && Claimable(rows, q, locked, s) ==> s in all)
    decreases bound - cursor
  {
    if cursor + 1 < bound {
      ScanIsCompleteAndAscending(rows, q, locked, cursor + 1, bound);
    }
  }

  lemma {:induction false} AuthorisedOfConcat(rows: Table, scopes: Scope -> bool, a: seq<nat>, b: seq<nat>)
    ensures Authorised(rows, scopes, a + b) == Authorised(rows, scopes, a) + Authorised(rows, scopes, b)
  {
    if a == [] {
      assert a + b == b;
    } else {
      assert (a + b)[1..] == a[1..] + b;
      AuthorisedOfConcat(rows, scopes, a[1..], b);
    }
  }

  /** One more scanned row extends the selection by at most that row. */
  lemma AuthorisedStep(rows: Table, scopes: Scope -> bool, all: seq<nat>, k: nat)
    requires k < |all|
    ensures Authorised(rows, scopes, all[..k + 1])
         == Authorised(rows, scopes, all[..k])
            + (if MayRead(rows, scopes, all[k]) then [all[k]] else [])
  {
    assert all[..k + 1] == all[..k] + [all[k]];
    AuthorisedOfConcat(rows, scopes, all[..k], [all[k]]);
  }

  lemma AuthorisedSplits(rows: Table, scopes: Scope -> bool, ids: seq<nat>, n: nat)
    requires n <= |ids|
    ensures Authorised(rows, scopes, ids) == Authorised(rows, scopes, ids[..n]) + Authorised(rows, scopes, ids[n..])
  {
    assert ids == ids[..n] + ids[n..];
    AuthorisedOfConcat(rows, scopes, ids[..n], ids[n..]);
  }

  /** Scanning `taken` rows past the cursor leaves exactly the rest of the scan to do. */
  lemma ScanAdvances(
    rows: Table, q: Poll, locked: set<nat>, scopes: Scope -> bool, cursor: nat, bound: nat, taken: nat)
    requires 0 < taken <= |Scan(rows, q, locked, cursor, bound)|
    ensures var todo := Scan(rows, q, locked, cursor, bound);
            var next := Scan(rows, q, locked, todo[taken - 1], bound);
            && next == todo[taken..]
            && Authorised(rows, scopes, todo) ==
               Authorised(rows, scopes, todo[..taken]) + Authorised(rows, scopes, next)
  {
    var todo := Scan(rows, q, locked, cursor, bound);
    ScanResumes(rows, q, locked, cursor, bound, taken - 1);
    AuthorisedSplits(rows, scopes, todo, taken);
  }

  /** One pass over a batch: keeps authorised rows until the selection is full. */
  method TakeAuthorised(rows: Table, scopes: Scope -> bool, batch: seq<nat>, before: seq<nat>, limit: nat)
    returns (selected: seq<nat>, taken: nat)
    requires batch != [] && |before| < limit
    ensures 0 < taken <= |batch|
    ensures selected == before + Authorised(rows, scopes, batch[..taken])
    ensures |selected| <= limit
    ensures taken == |batch| || |selected| == limit
  {
    selected, taken := before, 0;
    while taken < |batch|
      invariant 0 <= taken <= |batch|
      invariant selected == before + Authorised(rows, scopes, batch[..taken])
      invariant |selected| < limit
    {
      AuthorisedStep(rows, scopes, batch, taken);
      var sequence := batch[taken];
      taken := taken + 1;
      if MayRead(rows, scopes, sequence) {
        selected := selected + [sequence];
        if |selected| >= limit {
          return;
        }
      }
    }
  }

  /** Re-checks the grammar of every command about to be handed out. */
  method CheckRecordable(claimed: seq<Command>) returns (ok: bool)
    ensures ok == AllRecordable(claimed)
  {
    for i := 0 to |claimed|
      invariant forall j :: 0 <= j < i ==> IsRecordable(claimed[j])
    {
      if !IsRecordable(claimed[i]) {
        return false;
      }
    }
    return true;
  }

  /** After one batch, what was selected and what is still to be scanned make up the same rows as before. */
  lemma SelectionAdvances(
    rows: Table, q: Poll, locked: set<nat>, scopes: Scope -> bool, cursor: nat, bound: nat,
    batch: seq<nat>, taken: nat, selected: seq<nat>, more: seq<nat>)
    requires batch <= Scan(rows, q, locked, cursor, bound) && 0 < taken <= |batch|
    requires more == selected + Authorised(rows, scopes, batch[..taken])
    ensures var todo := Scan(rows, q, locked, cursor, bound);
            && Scan(rows, q, locked, batch[taken - 1], bound) == todo[taken..]
            && more + Authorised(rows, scopes, todo[taken..]) == selected + Authorised(rows, scopes, todo)
  {
    var todo := Scan(rows, q, locked, cursor, bound);
    ScanAdvances(rows, q, locked, scopes, cursor, bound, taken);
    PrefixOfPrefix(batch, todo, taken);
    ConcatAssociates(selected, Authorised(rows, scopes, todo[..taken]), Authorised(rows, scopes, todo[taken..]));
  }

  lemma SelectionIsDone(selected: seq<nat>, rest: seq<nat>, limit: nat)
    requires |selected| <= limit && (|selected| == limit || rest == [])
    ensures selected == Take(selected + rest, limit)
  {
  }

  /**
   * The batched cursor scan: the sequences a claim will deliver. At most
   * `batchSize` rows are read at a time, and the cursor keeps the scan moving
   * past rows the caller may not read.
   */
  method SelectForClaim(
    rows: Table, nextSeq: nat, q: Poll, locked: set<nat>, scopes: Scope -> bool, limit: nat, batchSize: nat)
    returns (selected: seq<nat>)
    requires 0 < batchSize
    ensures selected == ClaimIds(rows, nextSeq, q, locked, scopes, limit)
  {
    ghost var wanted := Authorised(rows, scopes, Scan(rows, q, locked, 0, nextSeq));
    ghost var todo := Scan(rows, q, locked, 0, nextSeq);
    var cursor := 0;
    selected := [];
    while |selected| < limit
      invariant todo == Scan(rows, q, locked, cursor, nextSeq)
      invariant selected + Authorised(rows, scopes, todo) == wanted
      invariant |selected| <= limit
      decreases |todo|
    {
      var batch := Take(Scan(rows, q, locked, cursor, nextSeq), batchSize);
      if batch == [] {
        break;
      }
      var more, taken := TakeAuthorised(rows, scopes, batch, selected, limit);
      SelectionAdvances(rows, q, locked, scopes, cursor, nextSeq, batch, taken, selected, more);
      selected, cursor, todo := more, batch[taken - 1], todo[taken..];
      if |batch| < batchSize {
        break;
      }
    }
    SelectionIsDone(selected, Authorised(rows, scopes, todo), limit);
  }

  class CommandInbox {
    const capacity: nat
    const scopeQuota: nat
    var rows: Table
    var nextSeq: nat

    ghost predicate Valid()
      reads this
    {
      && 0 < scopeQuota <= capacity <= 1_000_000
      && WellFormed(rows, nextSeq) && AttemptsUnset(rows)
    }

    constructor (capacity: nat, scopeQuota: nat)
      requires 0 < scopeQuota <= capacity <= MAX_INBOX_CAPACITY
      ensures Valid() && rows == map[] && nextSeq == 1
      ensures this.capacity == capacity && this.scopeQuota == scopeQuota
    {
      this.capacity := capacity;
      this.scopeQuota := scopeQuota;
      rows := map[];
      nextSeq := 1;
    }

    /** Opens the inbox, or refuses capacities that make no sense. */
    static method Connect(capacity: nat, scopeQuota: nat) returns (r: Result<CommandInbox, InboxError>)
      ensures r.Ok? <==> 0 < scopeQuota <= capacity <= 1_000_000
      ensures r.Err? ==> r.error == Configuration
      ensures r.Ok? ==> fresh(r.value) && r.value.Valid() && r.value.rows == map[]
      ensures r.Ok? ==> r.value.capacity == capacity && r.value.scopeQuota == scopeQuota
    {
      if capacity == 0 || capacity > MAX_INBOX_CAPACITY || scopeQuota == 0 || scopeQuota > capacity {
        return Err(Configuration);
      }
      var inbox := new CommandInbox(capacity, scopeQuota);
      return Ok(inbox);
    }

    /**
     * One `record` with no other transaction between its statements; which
     * answer it gets is `RecordAnswersExactly`.
     */
    method Record(c: Command) returns (r: Result<RecordResult, InboxError>)
      requires Valid()
      modifies this
      ensures Valid()
      ensures r == RecordAnswer(old(rows), c, scopeQuota, capacity)
      ensures r == Ok(AlreadyRecorded) <==> IsRecordable(c) && CommandStored(old(rows), c)
      ensures r == Ok(Recorded) ==> nextSeq == old(nextSeq) + 1 && RowAdded(old(rows), rows, old(nextSeq), c)
      ensures r != Ok(Recorded) ==> rows == old(rows) && nextSeq == old(nextSeq)
    {
      AlreadyRecordedExactly(rows, nextSeq, c, scopeQuota, capacity);
      if !IsRecordable(c) {
        return Err(InvalidCommand);
      }
      if HasKey(rows, KeyOf(c)) {
        if StoresSame(rows, c) {
          return Ok(AlreadyRecorded);
        }
        return Err(IdempotencyConflict);
      }
      if |ScopeRows(rows, ScopeOf(c))| >= scopeQuota {
        return Err(Capacity);
      }
      if |rows| >= capacity {
        return Err(Capacity);
      }
      NewRowIsAdded(rows, nextSeq, c);
      rows := rows[nextSeq := NewRow(c)];
      nextSeq := nextSeq + 1;
      return Ok(Recorded);
    }

    /** Delivers the claimed rows, or changes nothing on an error. */
    method Claim(q: Poll, locked: set<nat>, scopes: Scope -> bool, limit: nat, batchSize: nat)
      returns (r: Result<seq<Command>, InboxError>)
      requires 0 < batchSize
      requires Valid()
      modifies this`rows
      ensures Valid()
      ensures rows == ClaimTable(old(rows), nextSeq, q, locked, scopes, limit)
      ensures r.Err? ==> rows == old(rows)
      ensures r.Ok? ==>
        var ids := ClaimIds(old(rows), nextSeq, q, locked, scopes, limit);
        && q.now < I64_LIMIT && q.redeliveryAfter < I64_LIMIT
        && rows == Deliver(old(rows), ids, q.now)
        && |r.value| == |ids| && (forall k :: 0 <= k < |ids| ==> IsHandedFrom(r.value[k], old(rows)[ids[k]]))
    {
      if q.now >= I64_LIMIT || q.redeliveryAfter >= I64_LIMIT {
        return Err(Internal);
      }
      var selected := SelectForClaim(rows, nextSeq, q, locked, scopes, limit, batchSize);
      var updated := Deliver(rows, selected, q.now);
      var claimed := HandedAll(updated, selected);
      HandedAllAreHandOuts(rows, selected, q.now);
      var grammatical := CheckRecordable(claimed);
      if !grammatical {
        return Err(Configuration);
      }
      SameCommandsKeepsWellFormed(rows, updated, nextSeq);
      SameCommandsKeepsUnset(rows, updated);
      rows := updated;
      return Ok(claimed);
    }

    method Acknowledge(key: Key, agentId: string, attempt: nat, now: nat)
      returns (r: Result<AckResult, InboxError>)
      requires Valid()
      modifies this`rows
      ensures Valid()
      ensures rows == AckTable(old(rows), key, agentId, attempt, now)
      ensures r.Err? <==> now >= I64_LIMIT
      ensures r == Ok(Acknowledged) <==> rows != old(rows)
      ensures r == Ok(AlreadyAcknowledged) <==>
        && now < I64_LIMIT && rows == old(rows)
        && exists s :: s in rows && OwnedBy(rows[s], key, agentId) && rows[s].acknowledgedAt.Some?
      ensures r == Ok(AckNotFound) ==>
        forall s :: s in rows && OwnedBy(rows[s], key, agentId) ==>
          rows[s].acknowledgedAt.None? && rows[s].attempts < attempt
    {
      if now >= I64_LIMIT {
        return Err(Internal);
      }
      if exists s :: s in rows && AckMatches(rows[s], key, agentId, attempt) {
        ghost var s :| s in rows && AckMatches(rows[s], key, agentId, attempt);
        SameCommandsKeepsWellFormed(rows, AckTable(rows, key, agentId, attempt, now), nextSeq);
        SameCommandsKeepsUnset(rows, AckTable(rows, key, agentId, attempt, now));
        rows := AckTable(rows, key, agentId, attempt, now);
        assert rows[s] != old(rows)[s];
        return Ok(Acknowledged);
      }
      assert AckTable(rows, key, agentId, attempt, now) == rows;
      if exists s :: s in rows && KeyOf(rows[s].command) == key
                     && rows[s].command.agentId == agentId && rows[s].acknowledgedAt.Some? {
        ghost var s :| s in rows && KeyOf(rows[s].command) == key
                       && rows[s].command.agentId == agentId && rows[s].acknowledgedAt.Some?;
        assert OwnedBy(rows[s], key, agentId);
        return Ok(AlreadyAcknowledged);
      }
      return Ok(AckNotFound);
    }

    method Status(key: Key, maxAttempts: nat) returns (r: Option<(DeliveryStatus, nat)>)
      requires Valid()
      ensures r.None? <==> forall s :: s in rows ==> !Names(key, rows[s].command)
      ensures forall s :: s in rows && Names(key, rows[s].command) ==>
        r == Some((StatusOf(rows[s], maxAttempts), Min(rows[s].attempts, U32_MAX)))
    {
      var s := 1;
      while s < nextSeq
        invariant 1 <= s <= nextSeq
        invariant forall t :: t in rows && t < s ==> !Names(key, rows[t].command)
      {
        if s in rows && KeyOf(rows[s].command) == key {
          var attempts := Min(rows[s].attempts, U32_MAX);
          assert attempts == 0 <==> rows[s].attempts == 0;
          return Some((StatusOf(rows[s], maxAttempts), attempts));
        }
        s := s + 1;
      }
      return None;
    }

    method Cancel(key: Key, now: nat) returns (r: Result<CancelResult, InboxError>)
      requires Valid()
      modifies this`rows
      ensures Valid()
      ensures rows == CancelTable(old(rows), key, now)
      ensures r == Err(Internal) <==> now >= I64_LIMIT
      ensures r == Ok(Cancelled) <==> rows != old(rows)
      ensures r == Ok(CancelNotFound) <==>
        now < I64_LIMIT && forall s :: s in rows ==> !Names(key, rows[s].command)
      ensures r == Ok(AlreadyCancelled) <==>
        && now < I64_LIMIT && rows == old(rows)
        && exists s :: s in rows && Names(key, rows[s].command) && rows[s].cancelledAt.Some?
      ensures r == Err(AlreadyDelivered) ==>
        exists s :: s in rows && Names(key, rows[s].command) && rows[s].attempts > 0
    {
      if now >= I64_LIMIT {
        return Err(Internal);
      }
      if exists s :: s in rows && CancelMatches(rows[s], key) {
        ghost var s :| s in rows && CancelMatches(rows[s], key);
        SameCommandsKeepsWellFormed(rows, CancelTable(rows, key, now), nextSeq);
        SameCommandsKeepsUnset(rows, CancelTable(rows, key, now));
        rows := CancelTable(rows, key, now);
        assert rows[s] != old(rows)[s] && Names(key, rows[s].command);
        return Ok(Cancelled);
      }
      assert CancelTable(rows, key, now) == rows;
      if !HasKey(rows, key) {
        return Ok(CancelNotFound);
      }
      ghost var k :| k in rows && KeyOf(rows[k].command) == key;
      assert Names(key, rows[k].command);
      if exists s :: s in rows && KeyOf(rows[s].command) == key && rows[s].cancelledAt.Some? {
        return Ok(AlreadyCancelled);
      }
      return Err(AlreadyDelivered);
    }

    method Maintain(now: nat, retention: nat, maxAttempts: nat) returns (r: Result<(), InboxError>)
      requires Valid()
      modifies this`rows
      ensures Valid()
      ensures rows == MaintainTable(old(rows), now, retention, maxAttempts)
      ensures r.Err? <==> now >= I64_LIMIT || retention >= I64_LIMIT
      ensures r.Err? ==> rows == old(rows)
      ensures forall s :: s in rows ==> s in old(rows) && rows[s] == old(rows)[s]
      ensures forall s :: s in old(rows) && s !in rows ==>
        forall q: Poll :: q.maxAttempts == maxAttempts ==> !Eligible(old(rows)[s], q)
    {
      if now >= I64_LIMIT || retention >= I64_LIMIT {
        return Err(Internal);
      }
      SameCommandsKeepsWellFormed(rows, MaintainTable(rows, now, retention, maxAttempts), nextSeq);
      SameCommandsKeepsUnset(rows, MaintainTable(rows, now, retention, maxAttempts));
      rows := MaintainTable(rows, now, retention, maxAttempts);
      return Ok(());
    }
  }

  /** One more row, which holds exactly this command and was never delivered, acknowledged or cancelled. */
  ghost predicate RowAdded(before: Table, after: Table, s: nat, c: Command) {
    && s !in before && after.Keys == before.Keys + {s}
    && (forall t :: t in before ==> after[t] == before[t])
    && SameFields(after[s].command, c)
    && after[s] == Row(after[s].command, 0, None, None, None)
  }

  lemma NewRowIsAdded(rows: Table, nextSeq: nat, c: Command)
    requires WellFormed(rows, nextSeq) && AttemptsUnset(rows) && !HasKey(rows, KeyOf(c))
    ensures var after := rows[nextSeq := NewRow(c)];
            RowAdded(rows, after, nextSeq, c) && WellFormed(after, nextSeq + 1) && AttemptsUnset(after)
  {
  }

  lemma AlreadyRecordedExactly(rows: Table, nextSeq: nat, c: Command, scopeQuota: nat, capacity: nat)
    requires WellFormed(rows, nextSeq) && AttemptsUnset(rows)
    ensures RecordAnswer(rows, c, scopeQuota, capacity) == Ok(AlreadyRecorded) <==>
            IsRecordable(c) && CommandStored(rows, c)
  {
    RecordAnswersExactly(rows, nextSeq, c, scopeQuota, capacity);
  }

  predicate OwnedBy(r: Row, key: Key, agentId: string) {
    Names(key, r.command) && r.command.agentId == agentId
  }

  /** What the agent gets: the stored command in every field, numbered one more than the earlier deliveries. */
  predicate IsHandOutOf(c: Command, stored: Command, earlier: nat) {
    SameFields(c, stored) && c.deliveryAttempt == Min(earlier + 1, U32_MAX)
  }

  predicate IsHandedFrom(c: Command, r: Row) {
    IsHandOutOf(c, r.command, r.attempts)
  }

  lemma HandedAllAreHandOuts(rows: Table, ids: seq<nat>, now: int)
    requires forall i :: 0 <= i < |ids| ==> ids[i] in rows
    ensures var cs := HandedAll(Deliver(rows, ids, now), ids);
            |cs| == |ids| && forall k :: 0 <= k < |ids| ==> IsHandedFrom(cs[k], rows[ids[k]])
  {
    var cs := HandedAll(Deliver(rows, ids, now), ids);
    forall k | 0 <= k < |ids| ensures IsHandedFrom(cs[k], rows[ids[k]]) {
      assert ids[k] in ids;
    }
  }
}
