/**
 * The fanout worker that drains the outbox into the primary trace: its retry
 * bookkeeping, tick by tick, against any publisher and any outbox failures.
 * Times are milliseconds of the worker's monotonic clock.
 */
module Fanout {
  import opened Common

  const FANOUT_BATCH_SIZE: nat := 256
  const MIN_RETRY_DELAY: nat := 5_000
  const MAX_RETRY_DELAY: nat := 60_000
  const MAX_REPLAY_ATTEMPTS: nat := 8
  const U32_MAX: nat := 0xFFFF_FFFF

  datatype OutboxKey = OutboxKey(workspaceId: string, namespaceId: string, eventId: string)

  function PowerOfTwo(n: nat): nat {
    if n == 0 then 1 else 2 * PowerOfTwo(n - 1)
  }

  /** `digest` is the first two bytes of the key's hash, as a number. */
  function RetryDelay(digest: OutboxKey -> nat, key: OutboxKey, attempts: nat): nat {
    Min(MIN_RETRY_DELAY * PowerOfTwo(Min(attempts, 4)), MAX_RETRY_DELAY) + digest(key) % 1_000
  }

  /** The backoff of each attempt: 10, 20, 40 and then 60 seconds, and less than one second of jitter. */
  lemma DelayBounds(digest: OutboxKey -> nat, key: OutboxKey, attempts: nat)
    ensures RetryDelay(digest, key, attempts) < 61_000
    ensures attempts == 0 ==> 5_000 <= RetryDelay(digest, key, attempts) < 6_000
    ensures attempts == 1 ==> 10_000 <= RetryDelay(digest, key, attempts) < 11_000
    ensures attempts == 2 ==> 20_000 <= RetryDelay(digest, key, attempts) < 21_000
    ensures attempts == 3 ==> 40_000 <= RetryDelay(digest, key, attempts) < 41_000
    ensures attempts >= 4 ==> 60_000 <= RetryDelay(digest, key, attempts) < 61_000
    ensures RetryDelay(digest, key, attempts) % 1_000 == digest(key) % 1_000
  {
    assert PowerOfTwo(1) == 2 && PowerOfTwo(2) == 4 && PowerOfTwo(3) == 8 && PowerOfTwo(4) == 16;
  }

  // ------------------------------------------------------------ one key's view

  /** What the worker remembers about one row. */
  datatype Track = Track(failures: nat, notBefore: Option<nat>)

  type Failures = map<OutboxKey, nat>
  type Deadlines = map<OutboxKey, nat>

  function View(failures: Failures, notBefore: Deadlines, k: OutboxKey): Track {
    Track(if k in failures then failures[k] else 0, if k in notBefore then Some(notBefore[k]) else None)
  }

  /** What one tick did with a row. */
  datatype Fate = NotTried | Settled | FailedAt(at: nat)

  /** The worker's bookkeeping for one row. Exhausted rows are forgotten once quarantined. */
  function TrackAfter(t: Track, fate: Fate, key: OutboxKey, quarantineOk: bool, digest: OutboxKey -> nat): Track {
    match fate
    case NotTried => t
    case Settled => Track(0, None)
    case FailedAt(at) =>
      var attempts := Min(t.failures + 1, U32_MAX);
      if attempts >= MAX_REPLAY_ATTEMPTS then
        if quarantineOk then Track(0, None) else Track(attempts, t.notBefore)
      else Track(attempts, Some(at + RetryDelay(digest, key, attempts)))
  }

  /**
   * Everything outside the worker that one tick meets: the batch read (or the
   * failed read), which publishes return Ok, whether the outbox lock could be
   * taken to settle, the instants sampled, and whether the quarantine succeeded.
   */
  datatype Tick = Tick(
    batch: Option<seq<OutboxKey>>,
    readAt: nat,
    publishes: OutboxKey -> bool,
    lockFailed: bool,
    handledAt: OutboxKey -> nat,
    quarantineOk: bool)

  predicate Due(t: Track, readAt: nat) {
    t.notBefore.None? || t.notBefore.value <= readAt
  }

  /** Read in this batch and past its retry deadline. */
  predicate Tried(t: Track, tick: Tick, k: OutboxKey) {
    tick.batch.Some? && k in tick.batch.value && Due(t, tick.readAt)
  }

  /**
   * Settling counts as done unless the outbox lock itself failed: an error the
   * outbox reports from inside the lock is not looked at.
   */
  function FateOf(t: Track, tick: Tick, k: OutboxKey): Fate {
    if !Tried(t, tick, k) then NotTried
    else if tick.publishes(k) && !tick.lockFailed then Settled
    else FailedAt(tick.handledAt(k))
  }

  predicate Exhausted(t: Track, tick: Tick, k: OutboxKey) {
    FateOf(t, tick, k).FailedAt? && OutOfTries(t)
  }

  predicate Distinct(ks: seq<OutboxKey>) {
    forall i, j :: 0 <= i < j < |ks| ==> ks[i] != ks[j]
  }

  lemma DistinctConcat(a: seq<OutboxKey>, b: seq<OutboxKey>)
    requires Distinct(a) && Distinct(b) && (forall k :: k in a ==> k !in b)
    ensures Distinct(a + b)
  {
    forall i, j | 0 <= i < j < |a + b| ensures (a + b)[i] != (a + b)[j] {
      if i < |a| <= j {
        assert (a + b)[i] in a && (a + b)[j] in b;
      }
    }
  }

  /** The next failure would be the eighth or later. */
  predicate OutOfTries(t: Track) {
    Min(t.failures + 1, U32_MAX) >= MAX_REPLAY_ATTEMPTS
  }

  function Rescheduled(t: Track, failed: bool, k: OutboxKey, handledAt: OutboxKey -> nat, digest: OutboxKey -> nat)
    : Track
  {
    if failed then TrackAfter(t, FailedAt(handledAt(k)), k, false, digest) else t
  }

  /** The view of one row after a whole tick. */
  function Ticked(t: Track, tick: Tick, k: OutboxKey, digest: OutboxKey -> nat): Track {
    TrackAfter(t, FateOf(t, tick, k), k, tick.quarantineOk, digest)
  }

  /**
   * One tick from start to end: the bookkeeping of every row, and the two lists
   * of keys the worker hands to the outbox, to settle and to quarantine.
   */
  ghost predicate TickDone(
    failures: Failures, notBefore: Deadlines, tick: Tick, digest: OutboxKey -> nat,
    failures': Failures, notBefore': Deadlines, settled: seq<OutboxKey>, quarantined: seq<OutboxKey>)
  {
    && (forall k :: View(failures', notBefore', k) == Ticked(View(failures, notBefore, k), tick, k, digest))
    && (forall k :: k in settled <==>
          Tried(View(failures, notBefore, k), tick, k) && tick.publishes(k) && !tick.lockFailed)
    && (forall k :: k in quarantined <==> Exhausted(View(failures, notBefore, k), tick, k))
  }

  /** The phases of a tick, seen from one row. */
  lemma OneRowTicked(
    tick: Tick, k: OutboxKey, digest: OutboxKey -> nat, settled: bool, failed: bool, quarantined: bool,
    before: Track, afterSettling: Track, afterCounting: Track)
    requires settled <==> FateOf(before, tick, k).Settled?
    requires failed <==> FateOf(before, tick, k).FailedAt?
    requires afterSettling == if settled then Track(0, None) else before
    requires quarantined <==> failed && OutOfTries(afterSettling)
    requires afterCounting == Rescheduled(afterSettling, failed, k, tick.handledAt, digest)
    ensures (if tick.quarantineOk && quarantined then Track(0, None) else afterCounting)
         == Ticked(before, tick, k, digest)
    ensures quarantined <==> Exhausted(before, tick, k)
  {
  }

  /** Counting one failure touches the bookkeeping of that row alone. */
  lemma OneMoreFailure(
    f: Failures, d: Deadlines, f': Failures, d': Deadlines, key: OutboxKey,
    handledAt: OutboxKey -> nat, digest: OutboxKey -> nat)
    requires var attempts := Min((if key in f then f[key] else 0) + 1, U32_MAX);
             && f' == f[key := attempts]
             && d' == if attempts >= MAX_REPLAY_ATTEMPTS then d
                      else d[key := handledAt(key) + RetryDelay(digest, key, attempts)]
    ensures forall k :: View(f', d', k) == Rescheduled(View(f, d, k), k == key, k, handledAt, digest)
  {
  }

  class FanoutWorker {
    var failures: Failures
    var notBefore: Deadlines

    constructor ()
      ensures failures == map[] && notBefore == map[]
    {
      failures, notBefore := map[], map[];
    }

    /** Rows of the batch whose deadline has passed. */
    method SelectDue(batch: seq<OutboxKey>, readAt: nat) returns (due: seq<OutboxKey>)
      requires Distinct(batch)
      ensures Distinct(due)
      ensures forall k :: k in due <==> k in batch && Due(View(failures, notBefore, k), readAt)
    {
      due := [];
      for i := 0 to |batch|
        invariant Distinct(due)
        invariant forall k :: k in due <==> k in batch[..i] && Due(View(failures, notBefore, k), readAt)
      {
        assert batch[..i + 1] == batch[..i] + [batch[i]];
        assert batch[i] !in batch[..i];
        if batch[i] !in notBefore || notBefore[batch[i]] <= readAt {
          due := due + [batch[i]];
        }
      }
      assert batch[..|batch|] == batch;
    }

    /** Publishes every due row; a failed publish and a panicking one are the same. */
    method Publish(due: seq<OutboxKey>, publishes: OutboxKey -> bool)
      returns (completed: seq<OutboxKey>, failed: seq<OutboxKey>)
      requires Distinct(due)
      ensures Distinct(completed) && Distinct(failed)
      ensures forall k :: k in completed <==> k in due && publishes(k)
      ensures forall k :: k in failed <==> k in due && !publishes(k)
    {
      completed, failed := [], [];
      for i := 0 to |due|
        invariant Distinct(completed) && Distinct(failed)
        invariant forall k :: k in completed <==> k in due[..i] && publishes(k)
        invariant forall k :: k in failed <==> k in due[..i] && !publishes(k)
      {
        assert due[..i + 1] == due[..i] + [due[i]];
        assert due[i] !in due[..i];
        if publishes(due[i]) {
          completed := completed + [due[i]];
        } else {
          failed := failed + [due[i]];
        }
      }
      assert due[..|due|] == due;
    }

    method Forget(keys: seq<OutboxKey>)
      modifies this
      ensures forall k :: View(failures, notBefore, k)
                       == if k in keys then Track(0, None) else View(old(failures), old(notBefore), k)
    {
      for i := 0 to |keys|
        invariant forall k :: View(failures, notBefore, k)
                           == if k in keys[..i] then Track(0, None) else View(old(failures), old(notBefore), k)
      {
        assert keys[..i + 1] == keys[..i] + [keys[i]];
        failures := failures - {keys[i]};
        notBefore := notBefore - {keys[i]};
      }
      assert keys[..|keys|] == keys;
    }

    /** Counts one more failure for each row and sets its next deadline, or sends it to quarantine. */
    method Reschedule(failed: seq<OutboxKey>, handledAt: OutboxKey -> nat, digest: OutboxKey -> nat)
      returns (quarantine: seq<OutboxKey>)
      requires Distinct(failed)
      modifies this
      ensures forall k :: k in quarantine <==> k in failed && OutOfTries(View(old(failures), old(notBefore), k))
      ensures forall k :: View(failures, notBefore, k) ==
                          Rescheduled(View(old(failures), old(notBefore), k), k in failed, k, handledAt, digest)
    {
      quarantine := [];
      for i := 0 to |failed|
        invariant forall k ::
                    k in quarantine <==> k in failed[..i] && OutOfTries(View(old(failures), old(notBefore), k))
        invariant forall k :: View(failures, notBefore, k) ==
                              Rescheduled(
                                View(old(failures), old(notBefore), k), k in failed[..i], k, handledAt, digest)
      {
        var key := failed[i];
        assert failed[..i + 1] == failed[..i] + [key];
        assert key !in failed[..i];
        ghost var f, d := failures, notBefore;
        assert View(f, d, key) == View(old(failures), old(notBefore), key);
        var attempts := Min((if key in failures then failures[key] else 0) + 1, U32_MAX);
        failures := failures[key := attempts];
        if attempts >= MAX_REPLAY_ATTEMPTS {
          quarantine := quarantine + [key];
        } else {
          notBefore := notBefore[key := handledAt(key) + RetryDelay(digest, key, attempts)];
        }
        OneMoreFailure(f, d, failures, notBefore, key, handledAt, digest);
      }
      assert failed[..|failed|] == failed;
    }

    /** The first half of a tick: publishes what is due and hands the successes to the outbox to settle. */
    method PublishAndSettle(tick: Tick) returns (settled: seq<OutboxKey>, failed: seq<OutboxKey>)
      requires tick.batch.Some? && Distinct(tick.batch.value)
      modifies this
      ensures Distinct(failed)
      ensures forall k :: k in settled <==> FateOf(View(old(failures), old(notBefore), k), tick, k).Settled?
      ensures forall k :: k in failed <==> FateOf(View(old(failures), old(notBefore), k), tick, k).FailedAt?
      ensures forall k :: View(failures, notBefore, k)
                       == if k in settled then Track(0, None) else View(old(failures), old(notBefore), k)
    {
      var due := SelectDue(tick.batch.value, tick.readAt);
      var completed;
      completed, failed := Publish(due, tick.publishes);
      if tick.lockFailed {
        DistinctConcat(failed, completed);
        failed := failed + completed;
        settled := [];
      } else {
        settled := completed;
        Forget(completed);
      }
    }

    /** The loop body of the worker, for one tick; returns the keys handed to the outbox. */
    method RunTick(tick: Tick, digest: OutboxKey -> nat)
      returns (settled: seq<OutboxKey>, quarantine: seq<OutboxKey>)
      requires tick.batch.Some? ==> Distinct(tick.batch.value)
      modifies this
      ensures TickDone(old(failures), old(notBefore), tick, digest, failures, notBefore, settled, quarantine)
    {
      settled, quarantine := [], [];
      if tick.batch.None? {
        return;
      }
      var failed;
      settled, failed := PublishAndSettle(tick);
      ghost var f1, d1 := failures, notBefore;
      quarantine := Reschedule(failed, tick.handledAt, digest);
      ghost var f2, d2 := failures, notBefore;
      if tick.quarantineOk {
        Forget(quarantine);
      }
      forall k
        ensures View(failures, notBefore, k) == Ticked(View(old(failures), old(notBefore), k), tick, k, digest)
        ensures k in quarantine <==> Exhausted(View(old(failures), old(notBefore), k), tick, k)
      {
        OneRowTicked(tick, k, digest, k in settled, k in failed, k in quarantine,
                     View(old(failures), old(notBefore), k), View(f1, d1, k), View(f2, d2, k));
      }
    }
  }

  // --------------------------------------------------------------------- runs

  /**
   * A run of one worker: the ticks, its bookkeeping around them, the keys each
   * tick handed to the outbox and the rows pending there. The outbox removes
   * some, all or none of the keys it is handed; others may add rows at any time.
   */
  datatype Run = Run(
    ticks: seq<Tick>,
    failures: seq<Failures>,
    deadlines: seq<Deadlines>,
    settled: seq<seq<OutboxKey>>,
    quarantined: seq<seq<OutboxKey>>,
    pending: seq<set<OutboxKey>>)

  ghost predicate Shaped(r: Run) {
    && |r.ticks| == |r.failures| - 1 == |r.deadlines| - 1 == |r.pending| - 1
    && |r.ticks| == |r.settled| == |r.quarantined|
  }

  function At(r: Run, n: nat, k: OutboxKey): Track
    requires n < |r.failures| && n < |r.deadlines|
  {
    View(r.failures[n], r.deadlines[n], k)
  }

  ghost predicate TickOf(r: Run, digest: OutboxKey -> nat, i: nat)
    requires Shaped(r) && i < |r.ticks|
  {
    var tick := r.ticks[i];
    && (tick.batch.Some? ==> Distinct(tick.batch.value) && |tick.batch.value| <= FANOUT_BATCH_SIZE)
    && (forall k :: tick.readAt <= tick.handledAt(k))
    && TickDone(r.failures[i], r.deadlines[i], tick, digest,
                r.failures[i + 1], r.deadlines[i + 1], r.settled[i], r.quarantined[i])
    && (forall k :: k in r.pending[i] ==> k in r.pending[i + 1] || k in r.settled[i] || k in r.quarantined[i])
  }

  ghost predicate IsRun(r: Run, digest: OutboxKey -> nat) {
    && Shaped(r)
    && r.failures[0] == map[] && r.deadlines[0] == map[]
    && (forall i: nat :: i < |r.ticks| ==> TickOf(r, digest, i))
  }

  /** The instants of the failed tries of a row since it last succeeded or was quarantined. */
  function Streak(r: Run, n: nat, k: OutboxKey): seq<nat>
    requires n < |r.failures| && n < |r.deadlines| && n <= |r.ticks|
  {
    if n == 0 then []
    else
      var before, tick := Streak(r, n - 1, k), r.ticks[n - 1];
      match FateOf(At(r, n - 1, k), tick, k)
      case NotTried => before
      case Settled => []
      case FailedAt(at) =>
        if |before| + 1 >= MAX_REPLAY_ATTEMPTS && tick.quarantineOk then [] else before + [at]
  }

  /** Each of the first seven failures is followed by its full backoff. */
  ghost predicate WellSpaced(s: seq<nat>, k: OutboxKey, digest: OutboxKey -> nat) {
    && (forall j :: 1 <= j < |s| && j <= 7 ==> s[j] >= s[j - 1] + RetryDelay(digest, k, j))
    && (forall j :: 7 <= j < |s| ==> s[j] >= s[6] + RetryDelay(digest, k, 7))
  }

  /** The worker's counters are the streak, and its deadline the last backoff that was set. */
  ghost predicate Explained(t: Track, s: seq<nat>, k: OutboxKey, digest: OutboxKey -> nat) {
    && WellSpaced(s, k, digest)
    && t.failures == Min(|s|, U32_MAX)
    && (s == [] ==> t.notBefore.None?)
    && (s != [] ==>
          var m := Min(|s|, 7);
          t.notBefore == Some(s[m - 1] + RetryDelay(digest, k, m)))
  }

  /** One more failed try, made after its deadline, is well spaced. */
  lemma FailureIsSpaced(t: Track, s: seq<nat>, k: OutboxKey, digest: OutboxKey -> nat, readAt: nat, at: nat)
    requires Explained(t, s, k, digest) && Due(t, readAt) && readAt <= at
    ensures WellSpaced(s + [at], k, digest)
  {
    var g := s + [at];
    assert forall j :: 0 <= j < |s| ==> g[j] == s[j];
  }

  lemma FailureIsExplained(
    t: Track, s: seq<nat>, k: OutboxKey, digest: OutboxKey -> nat, readAt: nat, at: nat, quarantineOk: bool)
    requires Explained(t, s, k, digest) && Due(t, readAt) && readAt <= at
    ensures Explained(TrackAfter(t, FailedAt(at), k, quarantineOk, digest),
                      if |s| + 1 >= MAX_REPLAY_ATTEMPTS && quarantineOk then [] else s + [at], k, digest)
  {
    FailureIsSpaced(t, s, k, digest, readAt, at);
    var g := s + [at];
    assert forall j :: 0 <= j < |s| ==> g[j] == s[j];
  }

  lemma {:induction false} StreakExplains(r: Run, digest: OutboxKey -> nat, n: nat, k: OutboxKey)
    requires IsRun(r, digest) && n <= |r.ticks|
    ensures Explained(At(r, n, k), Streak(r, n, k), k, digest)
  {
    if n > 0 {
      StreakExplains(r, digest, n - 1, k);
      assert TickOf(r, digest, n - 1);
      var t, tick := At(r, n - 1, k), r.ticks[n - 1];
      assert At(r, n, k) == Ticked(t, tick, k, digest);
      if FateOf(t, tick, k).FailedAt? {
        FailureIsExplained(t, Streak(r, n - 1, k), k, digest, tick.readAt, tick.handledAt(k), tick.quarantineOk);
      }
    }
  }

  /** Seven backoffs add up to at least 310 seconds. */
  lemma SevenBackoffs(s: seq<nat>, k: OutboxKey, digest: OutboxKey -> nat)
    requires WellSpaced(s, k, digest) && |s| >= 8
    ensures s[|s| - 1] >= s[0] + 310_000
  {
    DelayBounds(digest, k, 1);
    DelayBounds(digest, k, 2);
    DelayBounds(digest, k, 3);
    DelayBounds(digest, k, 4);
    DelayBounds(digest, k, 5);
    DelayBounds(digest, k, 6);
    DelayBounds(digest, k, 7);
    assert s[1] >= s[0] + 10_000 && s[2] >= s[1] + 20_000 && s[3] >= s[2] + 40_000;
    assert s[4] >= s[3] + 60_000 && s[5] >= s[4] + 60_000 && s[6] >= s[5] + 60_000;
  }

  /**
   * A row leaves the outbox only after a publish that returned Ok, or when its
   * eighth or later failed try in an unbroken streak came at least 310 seconds
   * after the first.
   */
  lemma LeavesOnlyWhenDoneOrExhausted(r: Run, digest: OutboxKey -> nat, i: nat, k: OutboxKey)
    requires IsRun(r, digest) && i < |r.ticks|
    requires k in r.pending[i] && k !in r.pending[i + 1]
    ensures var tick, streak := r.ticks[i], Streak(r, i, k);
            && Tried(At(r, i, k), tick, k)
            && (|| (tick.publishes(k) && !tick.lockFailed)
                || (|streak| + 1 >= 8 && tick.handledAt(k) >= streak[0] + 310_000))
  {
    assert TickOf(r, digest, i);
    StreakExplains(r, digest, i, k);
    var t, tick, streak := At(r, i, k), r.ticks[i], Streak(r, i, k);
    if FateOf(t, tick, k).FailedAt? {
      FailureIsSpaced(t, streak, k, digest, tick.readAt, tick.handledAt(k));
      var full := streak + [tick.handledAt(k)];
      SevenBackoffs(full, k, digest);
      assert full[0] == streak[0];
    }
  }

  /** The row is tried again no sooner than its backoff, and the backoff is below 61 seconds. */
  lemma BackoffIsKept(r: Run, digest: OutboxKey -> nat, i: nat, k: OutboxKey)
    requires IsRun(r, digest) && i < |r.ticks|
    requires Tried(At(r, i, k), r.ticks[i], k) && 0 < |Streak(r, i, k)| < MAX_REPLAY_ATTEMPTS
    ensures var s := Streak(r, i, k);
            var delay := RetryDelay(digest, k, |s|);
            r.ticks[i].readAt >= s[|s| - 1] + delay && 10_000 <= delay < 61_000
  {
    StreakExplains(r, digest, i, k);
    DelayBounds(digest, k, |Streak(r, i, k)|);
  }

  /** When the next try of a row in a streak is due: the backoff of its latest failure, the seventh at most. */
  function DueAt(digest: OutboxKey -> nat, k: OutboxKey, streak: seq<nat>): nat
    requires streak != []
  {
    if |streak| <= 7 then streak[|streak| - 1] + RetryDelay(digest, k, |streak|)
    else streak[6] + RetryDelay(digest, k, 7)
  }

  /** A row of the batch is tried if and only if it is in no streak or its backoff is over. */
  lemma TriedExactly(r: Run, digest: OutboxKey -> nat, i: nat, k: OutboxKey)
    requires IsRun(r, digest) && i < |r.ticks|
    requires r.ticks[i].batch.Some? && k in r.ticks[i].batch.value
    ensures Tried(At(r, i, k), r.ticks[i], k) <==>
            Streak(r, i, k) == [] || DueAt(digest, k, Streak(r, i, k)) <= r.ticks[i].readAt
  {
    StreakExplains(r, digest, i, k);
  }

  /**
   * A row that is tried is handed over to settle if and only if its publish
   * returned Ok and the outbox lock was taken, and to quarantine if and only if
   * it failed with seven or more failures before it.
   */
  lemma HandedOverExactly(r: Run, digest: OutboxKey -> nat, i: nat, k: OutboxKey)
    requires IsRun(r, digest) && i < |r.ticks|
    ensures var tick, tried := r.ticks[i], Tried(At(r, i, k), r.ticks[i], k);
            var succeeded := tick.publishes(k) && !tick.lockFailed;
            && (k in r.settled[i] <==> tried && succeeded)
            && (k in r.quarantined[i] <==> tried && !succeeded && |Streak(r, i, k)| >= 7)
  {
    assert TickOf(r, digest, i);
    StreakExplains(r, digest, i, k);
  }
}
