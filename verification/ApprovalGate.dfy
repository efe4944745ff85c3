/** The two-operator gate in front of `force_stop`, over whole runs of submissions. */
module ApprovalGate {
  import opened Common

  /** Fifteen minutes, in milliseconds of the process's monotonic clock. */
  const APPROVAL_TTL: nat := 900_000
  const MAX_TRACKED_APPROVALS: nat := 4096

  datatype ApprovalKey = ApprovalKey(workspaceId: string, namespaceId: string, commandId: string)

  datatype Approval = Approval(fingerprint: string, operator: string, createdAt: nat)

  datatype Outcome = AwaitingSecond | AlreadyApprovedBySameOperator | Approved | FieldMismatch | RateLimited

  type Pending = map<ApprovalKey, Approval>

  /** One call of `submit`, with the instant it sampled. */
  datatype Call = Call(key: ApprovalKey, fingerprint: string, operator: string, now: nat)

  function Retained(p: Pending, now: nat): Pending {
    map k | k in p && Elapsed(now, p[k].createdAt) < APPROVAL_TTL :: p[k]
  }

  function OutcomeOf(p: Pending, c: Call): Outcome {
    var live := Retained(p, c.now);
    if c.key in live then
      if live[c.key].fingerprint != c.fingerprint then FieldMismatch
      else if live[c.key].operator == c.operator then AlreadyApprovedBySameOperator
      else Approved
    else if |live| >= MAX_TRACKED_APPROVALS then RateLimited
    else AwaitingSecond
  }

  function TableAfter(p: Pending, c: Call): Pending {
    var live := Retained(p, c.now);
    match OutcomeOf(p, c)
    case Approved => live - {c.key}
    case AwaitingSecond => live[c.key := Approval(c.fingerprint, c.operator, c.now)]
    case _ => live
  }

  class DualApprovalGate {
    var pending: Pending

    ghost predicate Valid()
      reads this
    {
      |pending| <= MAX_TRACKED_APPROVALS
    }

    constructor ()
      ensures Valid() && pending == map[]
    {
      pending := map[];
    }

    method Submit(key: ApprovalKey, fingerprint: string, operator: string, now: nat) returns (r: Outcome)
      requires Valid()
      modifies this
      ensures Valid()
      ensures r == OutcomeOf(old(pending), Call(key, fingerprint, operator, now))
      ensures pending == TableAfter(old(pending), Call(key, fingerprint, operator, now))
      ensures r.AwaitingSecond? ==> key in pending && pending[key] == Approval(fingerprint, operator, now)
      ensures r.Approved? ==> key !in pending && key in old(pending) && old(pending)[key].operator != operator
      ensures forall k :: k in pending && k != key ==> k in old(pending) && pending[k] == old(pending)[k]
    {
      RetainedIsSmaller(pending, now);
      pending := Retained(pending, now);
      if key in pending {
        var entry := pending[key];
        if entry.fingerprint != fingerprint {
          return FieldMismatch;
        }
        if entry.operator == operator {
          return AlreadyApprovedBySameOperator;
        }
        RemovalIsSmaller(pending, key);
        pending := pending - {key};
        return Approved;
      }
      if |pending| >= MAX_TRACKED_APPROVALS {
        return RateLimited;
      }
      pending := pending[key := Approval(fingerprint, operator, now)];
      return AwaitingSecond;
    }
  }

  lemma RetainedIsSmaller(p: Pending, now: nat)
    ensures |Retained(p, now)| <= |p|
  {
    SubsetIsSmaller(Retained(p, now).Keys, p.Keys);
  }

  lemma RemovalIsSmaller(p: Pending, key: ApprovalKey)
    ensures |p - {key}| <= |p|
  {
    SubsetIsSmaller((p - {key}).Keys, p.Keys);
  }

  // --------------------------------------------------------------------- runs

  /** A run of a fresh gate: the calls, the answers they got and the tables around them. */
  datatype Run = Run(calls: seq<Call>, answers: seq<Outcome>, tables: seq<Pending>)

  ghost predicate StepOf(r: Run, i: nat)
    requires i < |r.calls| == |r.answers| == |r.tables| - 1
  {
    && r.answers[i] == OutcomeOf(r.tables[i], r.calls[i])
    && r.tables[i + 1] == TableAfter(r.tables[i], r.calls[i])
  }

  ghost predicate IsRun(r: Run) {
    && |r.calls| == |r.answers| == |r.tables| - 1
    && r.tables[0] == map[]
    && forall i: nat :: i < |r.calls| ==> StepOf(r, i)
  }

  /** Over every run the table stays within its bound. */
  lemma {:induction false} TableIsBounded(r: Run, n: nat)
    requires IsRun(r) && n <= |r.calls|
    ensures |r.tables[n]| <= 4096
  {
    if n > 0 {
      TableIsBounded(r, n - 1);
      assert StepOf(r, n - 1);
      var p, c := r.tables[n - 1], r.calls[n - 1];
      RetainedIsSmaller(p, c.now);
      RemovalIsSmaller(Retained(p, c.now), c.key);
    }
  }

  /**
   * The call whose first approval is the current one for `key` after `n` calls,
   * judged by the answers alone: the last call that was told to await a second
   * operator, if no later call was approved. Expiry plays no part here.
   */
  function Holder(r: Run, n: nat, key: ApprovalKey): (j: Option<nat>)
    requires n <= |r.calls| == |r.answers|
    ensures j.Some? ==> j.value < n && r.calls[j.value].key == key && r.answers[j.value].AwaitingSecond?
  {
    if n == 0 then None
    else if r.calls[n - 1].key == key && r.answers[n - 1].AwaitingSecond? then Some(n - 1)
    else if r.calls[n - 1].key == key && r.answers[n - 1].Approved? then None
    else Holder(r, n - 1, key)
  }

  ghost predicate EntryIsHolder(r: Run, n: nat, key: ApprovalKey, entry: Approval)
    requires n <= |r.calls| == |r.answers|
  {
    var j := Holder(r, n, key);
    j.Some? && entry == Approval(r.calls[j.value].fingerprint, r.calls[j.value].operator, r.calls[j.value].now)
  }

  /** Every table entry is the holder's first approval. */
  lemma {:induction false} TableIsHolders(r: Run, n: nat, key: ApprovalKey)
    requires IsRun(r) && n <= |r.calls|
    requires key in r.tables[n]
    ensures EntryIsHolder(r, n, key, r.tables[n][key])
  {
    if n > 0 {
      assert StepOf(r, n - 1);
      if !(r.calls[n - 1].key == key && r.answers[n - 1].AwaitingSecond?) {
        TableIsHolders(r, n - 1, key);
      }
    }
  }

  /** The first approval that the approval at call `i` rests on. */
  function Consumed(r: Run, i: nat): Option<nat>
    requires i < |r.calls| == |r.answers|
  {
    Holder(r, i, r.calls[i].key)
  }

  /**
   * Every approval rests on an earlier first approval of the same command with
   * the same fingerprint, by someone else, less than the time limit old.
   */
  lemma ApprovalNeedsTwoOperators(r: Run, i: nat)
    requires IsRun(r) && i < |r.calls| && r.answers[i].Approved?
    ensures var j := Consumed(r, i);
            && j.Some? && j.value < i
            && r.answers[j.value].AwaitingSecond?
            && r.calls[j.value].key == r.calls[i].key
            && r.calls[j.value].fingerprint == r.calls[i].fingerprint
            && r.calls[j.value].operator != r.calls[i].operator
            && Elapsed(r.calls[i].now, r.calls[j.value].now) < 900_000
  {
    assert StepOf(r, i);
    TableIsHolders(r, i, r.calls[i].key);
  }

  /** After a point where nothing is held, whatever is held was submitted later. */
  lemma {:induction false} HolderIsLater(r: Run, m: nat, n: nat, key: ApprovalKey)
    requires m <= n <= |r.calls| == |r.answers|
    requires Holder(r, m, key).None? && Holder(r, n, key).Some?
    ensures m <= Holder(r, n, key).value
    decreases n
  {
    if m < n && !(r.calls[n - 1].key == key && r.answers[n - 1].AwaitingSecond?) {
      HolderIsLater(r, m, n - 1, key);
    }
  }

  /** No first approval is used twice. */
  lemma NoApprovalIsReused(r: Run, i: nat, k: nat)
    requires IsRun(r) && i < k < |r.calls| && r.answers[i].Approved? && r.answers[k].Approved?
    ensures Consumed(r, i) != Consumed(r, k)
  {
    ApprovalNeedsTwoOperators(r, i);
    ApprovalNeedsTwoOperators(r, k);
    if r.calls[i].key == r.calls[k].key {
      HolderIsLater(r, i + 1, k, r.calls[i].key);
    }
  }

  // ------------------------------------------------- the exact condition, in time

  ghost predicate TimeMovesForward(calls: seq<Call>) {
    forall i, j :: 0 <= i < j < |calls| ==> calls[i].now <= calls[j].now
  }

  /** With time moving forward, a holder missing from the table has expired. */
  lemma {:induction false} MissingHolderExpired(r: Run, n: nat, key: ApprovalKey)
    requires IsRun(r) && 0 < n <= |r.calls| && TimeMovesForward(r.calls)
    requires Holder(r, n, key).Some? && key !in r.tables[n]
    ensures Elapsed(r.calls[n - 1].now, r.calls[Holder(r, n, key).value].now) >= APPROVAL_TTL
  {
    assert StepOf(r, n - 1);
    assert !(r.calls[n - 1].key == key && r.answers[n - 1].AwaitingSecond?);
    var j := Holder(r, n, key).value;
    assert Holder(r, n - 1, key) == Some(j);
    if key in r.tables[n - 1] {
      TableIsHolders(r, n - 1, key);
    } else {
      MissingHolderExpired(r, n - 1, key);
    }
  }

  /** A submission is approved exactly when a live first approval by another operator matches it. */
  lemma ApprovedExactlyWhen(r: Run, i: nat)
    requires IsRun(r) && i < |r.calls| && TimeMovesForward(r.calls)
    ensures r.answers[i].Approved? <==>
            var j := Holder(r, i, r.calls[i].key);
            && j.Some?
            && r.calls[j.value].fingerprint == r.calls[i].fingerprint
            && r.calls[j.value].operator != r.calls[i].operator
            && r.calls[i].now - r.calls[j.value].now < 900_000
  {
    assert StepOf(r, i);
    var key := r.calls[i].key;
    if key in r.tables[i] {
      TableIsHolders(r, i, key);
    } else if Holder(r, i, key).Some? {
      MissingHolderExpired(r, i, key);
    }
  }

  /** The key has a current first approval that has not expired when call `i` arrives. */
  predicate Live(r: Run, i: nat, key: ApprovalKey)
    requires i < |r.calls| == |r.answers|
  {
    var j := Holder(r, i, key);
    j.Some? && r.calls[i].now - r.calls[j.value].now < 900_000
  }

  /** All such keys. */
  ghost function LiveKeys(r: Run, i: nat): set<ApprovalKey>
    requires i < |r.calls| == |r.answers|
  {
    set j: nat | j < i && Live(r, i, r.calls[j].key) :: r.calls[j].key
  }

  lemma RetainedIsLive(r: Run, i: nat, key: ApprovalKey)
    requires IsRun(r) && i < |r.calls| && TimeMovesForward(r.calls)
    ensures key in Retained(r.tables[i], r.calls[i].now) <==> Live(r, i, key)
    ensures key in Retained(r.tables[i], r.calls[i].now) ==>
            EntryIsHolder(r, i, key, Retained(r.tables[i], r.calls[i].now)[key])
  {
    if key in r.tables[i] {
      TableIsHolders(r, i, key);
    } else if Holder(r, i, key).Some? {
      MissingHolderExpired(r, i, key);
    }
  }

  lemma RetainedKeysAreLive(r: Run, i: nat)
    requires IsRun(r) && i < |r.calls| && TimeMovesForward(r.calls)
    ensures Retained(r.tables[i], r.calls[i].now).Keys == LiveKeys(r, i)
  {
    var live := Retained(r.tables[i], r.calls[i].now);
    forall key ensures key in live <==> key in LiveKeys(r, i) {
      RetainedIsLive(r, i, key);
      if Live(r, i, key) {
        assert r.calls[Holder(r, i, key).value].key == key;
      }
    }
  }

  /**
   * In every run with time moving forward, each of the five answers is given
   * exactly when the submissions and answers before it say so.
   */
  lemma AnsweredExactly(r: Run, i: nat)
    requires IsRun(r) && i < |r.calls| && TimeMovesForward(r.calls)
    ensures var c, live := r.calls[i], Live(r, i, r.calls[i].key);
            && (r.answers[i].AwaitingSecond? <==> !live && |LiveKeys(r, i)| < 4096)
            && (r.answers[i].RateLimited? <==> !live && |LiveKeys(r, i)| >= 4096)
            && (live ==>
                  var first := r.calls[Holder(r, i, c.key).value];
                  && (r.answers[i].FieldMismatch? <==> first.fingerprint != c.fingerprint)
                  && (r.answers[i].AlreadyApprovedBySameOperator? <==>
                        first.fingerprint == c.fingerprint && first.operator == c.operator)
                  && (r.answers[i].Approved? <==>
                        first.fingerprint == c.fingerprint && first.operator != c.operator))
  {
    assert StepOf(r, i);
    RetainedIsLive(r, i, r.calls[i].key);
    RetainedKeysAreLive(r, i);
  }
}
