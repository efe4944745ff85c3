/**
 * The process-local fixed-window limiter shared by operator admission and agent
 * polls. Instants and durations are in nanoseconds.
 */
module Limiter {
  import opened Common

  /** The longest duration the platform can express, in nanoseconds: 2^64 seconds less one nanosecond. */
  const DURATION_MAX: nat := U64_LIMIT * 1_000_000_000 - 1

  datatype Bucket = Bucket(windowStarted: nat, lastSeen: nat, count: nat)

  type Buckets = map<string, Bucket>

  datatype Limits = Limits(limit: nat, window: nat, maxTracked: nat)

  datatype Verdict = Admitted | OverLimit | TableFull

  datatype Call = Call(subject: string, now: nat)

  predicate ValidLimits(l: Limits) {
    l.window <= DURATION_MAX
  }

  /** Twice the window, saturating. */
  function StaleAfter(l: Limits): nat {
    Min(2 * l.window, DURATION_MAX)
  }

  function Pruned(t: Buckets, l: Limits, now: nat): Buckets {
    map s | s in t && Elapsed(now, t[s].lastSeen) < StaleAfter(l) :: t[s]
  }

  /** The caller's bucket, fresh or restarted when its window is over. */
  function Current(t: Buckets, l: Limits, c: Call): Bucket {
    if c.subject !in t || Elapsed(c.now, t[c.subject].windowStarted) >= l.window
    then Bucket(c.now, c.now, 0)
    else t[c.subject].(lastSeen := c.now)
  }

  /** A limiter with no bound on its table and no eviction: what a bucket alone decides. */
  function PlainVerdict(t: Buckets, l: Limits, c: Call): Verdict {
    if Current(t, l, c).count >= l.limit then OverLimit else Admitted
  }

  function PlainTable(t: Buckets, l: Limits, c: Call): Buckets {
    var b := Current(t, l, c);
    t[c.subject := if b.count >= l.limit then b else b.(count := b.count + 1)]
  }

  function VerdictOf(t: Buckets, l: Limits, c: Call): Verdict {
    var live := Pruned(t, l, c.now);
    if c.subject !in live && |live| >= l.maxTracked then TableFull else PlainVerdict(live, l, c)
  }

  function TableAfter(t: Buckets, l: Limits, c: Call): Buckets {
    var live := Pruned(t, l, c.now);
    if c.subject !in live && |live| >= l.maxTracked then live else PlainTable(live, l, c)
  }

  class AdmissionTable {
    var buckets: Buckets

    constructor ()
      ensures buckets == map[]
    {
      buckets := map[];
    }

    method AdmitIn(subject: string, l: Limits, now: nat) returns (v: Verdict)
      requires ValidLimits(l) && |buckets| <= l.maxTracked
      modifies this
      ensures |buckets| <= l.maxTracked
      ensures v == VerdictOf(old(buckets), l, Call(subject, now))
      ensures buckets == TableAfter(old(buckets), l, Call(subject, now))
      ensures v.Admitted? ==> subject in buckets && 0 < buckets[subject].count <= l.limit
      ensures forall s :: s in buckets && s != subject ==> s in old(buckets) && buckets[s] == old(buckets)[s]
    {
      PrunedIsSmaller(buckets, l, now);
      buckets := Pruned(buckets, l, now);
      if subject !in buckets && |buckets| >= l.maxTracked {
        return TableFull;
      }
      if subject !in buckets {
        buckets := buckets[subject := Bucket(now, now, 0)];
      }
      var bucket := buckets[subject].(lastSeen := now);
      if Elapsed(now, bucket.windowStarted) >= l.window {
        bucket := Bucket(now, now, 0);
      }
      if bucket.count >= l.limit {
        buckets := buckets[subject := bucket];
        return OverLimit;
      }
      buckets := buckets[subject := bucket.(count := bucket.count + 1)];
      return Admitted;
    }
  }

  lemma PrunedIsSmaller(t: Buckets, l: Limits, now: nat)
    ensures |Pruned(t, l, now)| <= |t|
  {
    SubsetIsSmaller(Pruned(t, l, now).Keys, t.Keys);
  }

  // --------------------------------------------------------------------- runs

  /**
   * A run from an empty table, beside the table a limiter that never evicts
   * would have (fed the calls that were not turned away for a full table).
   */
  datatype Run = Run(calls: seq<Call>, verdicts: seq<Verdict>, tables: seq<Buckets>, plain: seq<Buckets>)

  ghost predicate StepOf(r: Run, l: Limits, i: nat)
    requires i < |r.calls| == |r.verdicts| == |r.tables| - 1 == |r.plain| - 1
  {
    && r.verdicts[i] == VerdictOf(r.tables[i], l, r.calls[i])
    && r.tables[i + 1] == TableAfter(r.tables[i], l, r.calls[i])
    && r.plain[i + 1] == if r.verdicts[i].TableFull? then r.plain[i] else PlainTable(r.plain[i], l, r.calls[i])
  }

  ghost predicate IsRun(r: Run, l: Limits) {
    && ValidLimits(l)
    && |r.calls| == |r.verdicts| == |r.tables| - 1 == |r.plain| - 1
    && r.tables[0] == map[] && r.plain[0] == map[]
    && (forall i: nat :: i < |r.calls| ==> StepOf(r, l, i))
  }

  ghost predicate TimeMovesForward(r: Run) {
    forall i, j :: 0 <= i < j < |r.calls| ==> r.calls[i].now <= r.calls[j].now
  }

  /** Over every run the table holds at most `maxTracked` subjects. */
  lemma {:induction false} TableIsBounded(r: Run, l: Limits, n: nat)
    requires IsRun(r, l) && n <= |r.calls|
    ensures |r.tables[n]| <= l.maxTracked
  {
    if n > 0 {
      TableIsBounded(r, l, n - 1);
      assert StepOf(r, l, n - 1);
      PrunedIsSmaller(r.tables[n - 1], l, r.calls[n - 1].now);
    }
  }

  function Clock(r: Run, n: nat): nat
    requires n <= |r.calls|
  {
    if n == 0 then 0 else r.calls[n - 1].now
  }

  /** The two tables differ only by buckets that are stale by now. */
  ghost predicate Agree(t: Buckets, plain: Buckets, l: Limits, now: nat) {
    && (forall s :: s in t ==> s in plain && t[s] == plain[s])
    && (forall s :: s in plain ==> plain[s].windowStarted <= plain[s].lastSeen <= now)
    && (forall s :: s in plain && s !in t ==> now - plain[s].lastSeen >= StaleAfter(l))
  }

  /** A stale bucket would be restarted anyway: its window is over. */
  lemma PruningChangesNothing(t: Buckets, plain: Buckets, l: Limits, before: nat, c: Call)
    requires ValidLimits(l) && Agree(t, plain, l, before) && before <= c.now
    ensures Current(Pruned(t, l, c.now), l, c) == Current(plain, l, c)
    ensures Agree(Pruned(t, l, c.now), plain, l, c.now)
  {
    assert StaleAfter(l) >= l.window;
  }

  lemma StepAgrees(t: Buckets, plain: Buckets, l: Limits, before: nat, c: Call)
    requires ValidLimits(l) && Agree(t, plain, l, before) && before <= c.now
    ensures var full := VerdictOf(t, l, c).TableFull?;
            && (!full ==> VerdictOf(t, l, c) == PlainVerdict(plain, l, c))
            && Agree(TableAfter(t, l, c), if full then plain else PlainTable(plain, l, c), l, c.now)
  {
    PruningChangesNothing(t, plain, l, before, c);
    if !VerdictOf(t, l, c).TableFull? {
      CountingAgrees(Pruned(t, l, c.now), plain, l, c);
    }
  }

  lemma CountingAgrees(t: Buckets, plain: Buckets, l: Limits, c: Call)
    requires Agree(t, plain, l, c.now) && Current(t, l, c) == Current(plain, l, c)
    ensures Agree(PlainTable(t, l, c), PlainTable(plain, l, c), l, c.now)
  {
  }

  lemma {:induction false} TablesAgree(r: Run, l: Limits, n: nat)
    requires IsRun(r, l) && TimeMovesForward(r) && n <= |r.calls|
    ensures Agree(r.tables[n], r.plain[n], l, Clock(r, n))
  {
    if n > 0 {
      TablesAgree(r, l, n - 1);
      assert StepOf(r, l, n - 1);
      StepAgrees(r.tables[n - 1], r.plain[n - 1], l, Clock(r, n - 1), r.calls[n - 1]);
    }
  }

  /** Every call not turned away for a full table gets the verdict of a limiter that never evicts. */
  lemma EvictionIsInvisible(r: Run, l: Limits, i: nat)
    requires IsRun(r, l) && TimeMovesForward(r) && i < |r.calls|
    requires !r.verdicts[i].TableFull?
    ensures r.verdicts[i] == PlainVerdict(r.plain[i], l, r.calls[i])
  {
    TablesAgree(r, l, i);
    assert StepOf(r, l, i);
    StepAgrees(r.tables[i], r.plain[i], l, Clock(r, i), r.calls[i]);
  }

  // --------------------------------------------------------- at most twice the limit

  /** One admission, and the window it was counted in. */
  datatype Admission = Admission(at: nat, start: nat)

  /** The admissions of one subject among the first `n` calls, in order. */
  function Admissions(r: Run, n: nat, subject: string): seq<Admission>
    requires n <= |r.calls| == |r.verdicts| == |r.plain| - 1
  {
    if n == 0 then []
    else
      var before := Admissions(r, n - 1, subject);
      if r.calls[n - 1].subject == subject && r.verdicts[n - 1].Admitted? && subject in r.plain[n]
      then before + [Admission(r.calls[n - 1].now, r.plain[n][subject].windowStarted)]
      else before
  }

  /** Windows are spaced out, and none holds more than `limit` admissions. */
  ghost predicate Spaced(log: seq<Admission>, l: Limits) {
    && (forall i :: 0 <= i < |log| ==> log[i].start <= log[i].at < log[i].start + l.window)
    && (forall i, j :: 0 <= i && i + l.limit <= j < |log| ==> log[i].start + l.window <= log[j].start)
  }

  /** The newest `count` admissions belong to the bucket's window, all others to windows long over. */
  ghost predicate BucketExplains(log: seq<Admission>, b: Bucket, l: Limits) {
    && b.count <= |log| && b.count <= l.limit
    && (forall i :: |log| - b.count <= i < |log| ==> log[i].start == b.windowStarted)
    && (forall i :: 0 <= i < |log| - b.count ==> log[i].start + l.window <= b.windowStarted)
  }

  ghost predicate LogExplained(log: seq<Admission>, t: Buckets, l: Limits, subject: string) {
    && Spaced(log, l)
    && (if subject in t then BucketExplains(log, t[subject], l) else log == [])
  }

  lemma RestartStaysExplained(log: seq<Admission>, t: Buckets, l: Limits, c: Call)
    requires LogExplained(log, t, l, c.subject)
    requires c.subject in t ==> t[c.subject].windowStarted <= c.now
    ensures BucketExplains(log, Current(t, l, c), l)
  {
  }

  lemma AdmissionStaysExplained(log: seq<Admission>, b: Bucket, l: Limits, now: nat)
    requires Spaced(log, l) && BucketExplains(log, b, l) && b.count < l.limit
    requires b.windowStarted <= now < b.windowStarted + l.window
    ensures Spaced(log + [Admission(now, b.windowStarted)], l)
    ensures BucketExplains(log + [Admission(now, b.windowStarted)], b.(count := b.count + 1), l)
  {
    var longer := log + [Admission(now, b.windowStarted)];
    assert forall i :: 0 <= i < |log| ==> longer[i] == log[i];
  }

  lemma LogStep(log: seq<Admission>, t: Buckets, l: Limits, c: Call)
    requires 0 < l.window && LogExplained(log, t, l, c.subject)
    requires c.subject in t ==> t[c.subject].windowStarted <= c.now
    ensures var after, start := PlainTable(t, l, c), Current(t, l, c).windowStarted;
            && after[c.subject].windowStarted == start
            && LogExplained(if PlainVerdict(t, l, c).Admitted? then log + [Admission(c.now, start)] else log,
                            after, l, c.subject)
  {
    RestartStaysExplained(log, t, l, c);
    if PlainVerdict(t, l, c).Admitted? {
      AdmissionStaysExplained(log, Current(t, l, c), l, c.now);
    }
  }

  /** Calls of other subjects, and calls turned away for a full table, leave the log and the bucket alone. */
  lemma OtherCallsDoNotMatter(log: seq<Admission>, t: Buckets, after: Buckets, l: Limits, c: Call, subject: string)
    requires LogExplained(log, t, l, subject)
    requires after == t || (c.subject != subject && after == PlainTable(t, l, c))
    ensures LogExplained(log, after, l, subject)
  {
  }

  /** A call of the subject itself that reached its bucket. */
  lemma CountedCallStaysExplained(r: Run, l: Limits, i: nat)
    requires IsRun(r, l) && TimeMovesForward(r) && 0 < l.window && i < |r.calls| && !r.verdicts[i].TableFull?
    requires LogExplained(Admissions(r, i, r.calls[i].subject), r.plain[i], l, r.calls[i].subject)
    ensures LogExplained(Admissions(r, i + 1, r.calls[i].subject), r.plain[i + 1], l, r.calls[i].subject)
  {
    assert StepOf(r, l, i);
    TablesAgree(r, l, i);
    EvictionIsInvisible(r, l, i);
    LogStep(Admissions(r, i, r.calls[i].subject), r.plain[i], l, r.calls[i]);
  }

  lemma {:induction false} LogIsExplained(r: Run, l: Limits, n: nat, subject: string)
    requires IsRun(r, l) && TimeMovesForward(r) && 0 < l.window && n <= |r.calls|
    ensures LogExplained(Admissions(r, n, subject), r.plain[n], l, subject)
  {
    if n > 0 {
      LogIsExplained(r, l, n - 1, subject);
      assert StepOf(r, l, n - 1);
      var c, log := r.calls[n - 1], Admissions(r, n - 1, subject);
      if c.subject == subject && !r.verdicts[n - 1].TableFull? {
        CountedCallStaysExplained(r, l, n - 1);
      } else {
        OtherCallsDoNotMatter(log, r.plain[n - 1], r.plain[n], l, c, subject);
      }
    }
  }

  /** More than `2 * limit` admissions in a row never fit in one window length. */
  lemma FarApart(log: seq<Admission>, l: Limits, i: nat, j: nat)
    requires Spaced(log, l) && i + 2 * l.limit <= j < |log|
    ensures log[j].at - log[i].at > l.window
  {
    assert log[i].start + l.window <= log[i + l.limit].start;
    assert log[i + l.limit].start + l.window <= log[j].start;
  }

  /** The positions of the admissions made in a span of one window length from `from`. */
  ghost function InSpan(log: seq<Admission>, from: nat, window: nat): set<nat> {
    set k: nat | k < |log| && from <= log[k].at <= from + window
  }

  lemma {:induction false} CloseNumbersAreFew(ks: set<nat>, m: nat)
    requires ks != {}
    requires forall a, b :: a in ks && b in ks ==> b < a + m
    ensures |ks| <= m
    decreases m
  {
    var low := Smallest(ks);
    assert low < low + m;
    var rest := ks - {low};
    assert ks == {low} + rest;
    if rest != {} {
      forall a, b | a in rest && b in rest ensures b < a + (m - 1) {
        assert low < a && b < low + m;
      }
      CloseNumbersAreFew(rest, m - 1);
    }
  }

  lemma {:induction false} Smallest(ks: set<nat>) returns (low: nat)
    requires ks != {}
    ensures low in ks && forall k :: k in ks ==> low <= k
  {
    var some :| some in ks;
    var rest := ks - {some};
    low := some;
    assert ks == {some} + rest;
    if rest != {} {
      var other := Smallest(rest);
      low := Min(some, other);
    }
  }

  /** A limit of zero, or a table without room, admits nobody. */
  lemma {:induction false} NobodyIsAdmitted(r: Run, l: Limits, n: nat, subject: string)
    requires IsRun(r, l) && n <= |r.calls| && (l.limit == 0 || l.maxTracked == 0)
    ensures Admissions(r, n, subject) == []
  {
    if n > 0 {
      NobodyIsAdmitted(r, l, n - 1, subject);
      assert StepOf(r, l, n - 1);
      TableIsBounded(r, l, n - 1);
      PrunedIsSmaller(r.tables[n - 1], l, r.calls[n - 1].now);
    }
  }

  /** The configurations for which the bound holds; `NoWindowNoLimit` is about all the others. */
  predicate Limiting(l: Limits) {
    0 < l.window || l.limit == 0 || l.maxTracked == 0
  }

  /** In any span of one window length a subject is admitted at most `2 * limit` times. */
  lemma AtMostTwiceTheLimit(r: Run, l: Limits, subject: string, from: nat)
    requires IsRun(r, l) && TimeMovesForward(r) && Limiting(l)
    ensures |InSpan(Admissions(r, |r.calls|, subject), from, l.window)| <= 2 * l.limit
  {
    var log := Admissions(r, |r.calls|, subject);
    var ks := InSpan(log, from, l.window);
    if l.limit == 0 || l.maxTracked == 0 {
      NobodyIsAdmitted(r, l, |r.calls|, subject);
      assert ks == {};
    } else {
      LogIsExplained(r, l, |r.calls|, subject);
      forall a, b | a in ks && b in ks ensures b < a + 2 * l.limit {
        if b >= a + 2 * l.limit {
          FarApart(log, l, a, b);
        }
      }
      if ks != {} {
        CloseNumbersAreFew(ks, 2 * l.limit);
      }
    }
  }

  /** The bound needs a window: without one every call of every run is admitted. */
  lemma NoWindowNoLimit(r: Run, l: Limits, i: nat)
    requires IsRun(r, l) && i < |r.calls|
    requires !Limiting(l)
    ensures r.verdicts[i].Admitted?
  {
    assert StepOf(r, l, i);
    assert Pruned(r.tables[i], l, r.calls[i].now) == map[];
  }

  // -------------------------------------------------------- the exact verdict

  /** Call `j` was the subject's own and reached its bucket. */
  predicate Counted(r: Run, j: nat, subject: string)
    requires j < |r.calls| == |r.verdicts|
  {
    r.calls[j].subject == subject && !r.verdicts[j].TableFull?
  }

  /** When the subject last reached its bucket. */
  function LastCounted(r: Run, n: nat, subject: string): Option<nat>
    requires n <= |r.calls| == |r.verdicts|
  {
    if n == 0 then None
    else if Counted(r, n - 1, subject) then Some(r.calls[n - 1].now)
    else LastCounted(r, n - 1, subject)
  }

  /** When the subject's current window started: a counted call a whole window later starts the next. */
  function WindowStart(r: Run, l: Limits, n: nat, subject: string): Option<nat>
    requires n <= |r.calls| == |r.verdicts|
    decreases n, 0
  {
    if n == 0 then None
    else if Counted(r, n - 1, subject) && WindowOver(r, l, n - 1, subject) then Some(r.calls[n - 1].now)
    else WindowStart(r, l, n - 1, subject)
  }

  /** No window of the subject is running when call `i` arrives. */
  predicate WindowOver(r: Run, l: Limits, i: nat, subject: string)
    requires i < |r.calls| == |r.verdicts|
    decreases i, 1
  {
    var start := WindowStart(r, l, i, subject);
    start.None? || r.calls[i].now - start.value >= l.window
  }

  /** How often the subject was admitted in its current window. */
  function AdmittedInWindow(r: Run, l: Limits, n: nat, subject: string): nat
    requires n <= |r.calls| == |r.verdicts|
    decreases n, 0
  {
    if n == 0 then 0
    else if !Counted(r, n - 1, subject) then AdmittedInWindow(r, l, n - 1, subject)
    else Used(r, l, n - 1, subject) + (if r.verdicts[n - 1].Admitted? then 1 else 0)
  }

  /** What call `i` finds used of the limit. */
  function Used(r: Run, l: Limits, i: nat, subject: string): nat
    requires i < |r.calls| == |r.verdicts|
    decreases i, 1
  {
    if WindowOver(r, l, i, subject) then 0 else AdmittedInWindow(r, l, i, subject)
  }

  /** The subject reached its bucket less than two windows ago. */
  predicate Tracked(r: Run, l: Limits, i: nat, subject: string)
    requires i < |r.calls| == |r.verdicts|
  {
    var last := LastCounted(r, i, subject);
    last.Some? && r.calls[i].now - last.value < Min(2 * l.window, DURATION_MAX)
  }

  ghost function TrackedSubjects(r: Run, l: Limits, i: nat): set<string>
    requires i < |r.calls| == |r.verdicts|
  {
    set j: nat | j < i && Tracked(r, l, i, r.calls[j].subject) :: r.calls[j].subject
  }

  ghost predicate BucketTells(r: Run, l: Limits, n: nat, subject: string)
    requires n <= |r.calls| == |r.verdicts| == |r.plain| - 1
  {
    var start, last := WindowStart(r, l, n, subject), LastCounted(r, n, subject);
    && (subject in r.plain[n] <==> last.Some?) && (last.Some? <==> start.Some?)
    && (last.Some? ==>
          r.plain[n][subject] == Bucket(start.value, last.value, AdmittedInWindow(r, l, n, subject)))
  }

  lemma CountedCallTells(r: Run, l: Limits, i: nat)
    requires IsRun(r, l) && TimeMovesForward(r) && i < |r.calls| && !r.verdicts[i].TableFull?
    requires BucketTells(r, l, i, r.calls[i].subject)
    ensures BucketTells(r, l, i + 1, r.calls[i].subject)
    ensures r.verdicts[i].Admitted? <==> Used(r, l, i, r.calls[i].subject) < l.limit
  {
    assert StepOf(r, l, i);
    TablesAgree(r, l, i);
    EvictionIsInvisible(r, l, i);
  }

  lemma {:induction false} BucketsTell(r: Run, l: Limits, n: nat, subject: string)
    requires IsRun(r, l) && TimeMovesForward(r) && n <= |r.calls|
    ensures BucketTells(r, l, n, subject)
  {
    if n > 0 {
      BucketsTell(r, l, n - 1, subject);
      assert StepOf(r, l, n - 1);
      if Counted(r, n - 1, subject) {
        CountedCallTells(r, l, n - 1);
      }
    }
  }

  lemma LiveIsTracked(r: Run, l: Limits, i: nat, subject: string)
    requires IsRun(r, l) && TimeMovesForward(r) && i < |r.calls|
    ensures subject in Pruned(r.tables[i], l, r.calls[i].now) <==> Tracked(r, l, i, subject)
  {
    TablesAgree(r, l, i);
    BucketsTell(r, l, i, subject);
  }

  lemma {:induction false} LastCountedIsACall(r: Run, n: nat, subject: string)
    requires n <= |r.calls| == |r.verdicts| && LastCounted(r, n, subject).Some?
    ensures exists j: nat :: j < n && r.calls[j].subject == subject
  {
    if !Counted(r, n - 1, subject) {
      LastCountedIsACall(r, n - 1, subject);
    }
  }

  lemma LiveSubjectsAreTracked(r: Run, l: Limits, i: nat)
    requires IsRun(r, l) && TimeMovesForward(r) && i < |r.calls|
    ensures Pruned(r.tables[i], l, r.calls[i].now).Keys == TrackedSubjects(r, l, i)
  {
    forall subject ensures subject in Pruned(r.tables[i], l, r.calls[i].now) <==> subject in TrackedSubjects(r, l, i) {
      LiveIsTracked(r, l, i, subject);
      if Tracked(r, l, i, subject) {
        LastCountedIsACall(r, i, subject);
      }
    }
  }

  /**
   * In every run with time moving forward, a call is refused for a full table
   * exactly when its subject is not tracked and `maxTracked` others are; any
   * other call is admitted exactly when less than the limit is used of its
   * subject's window.
   */
  lemma VerdictExactly(r: Run, l: Limits, i: nat)
    requires IsRun(r, l) && TimeMovesForward(r) && i < |r.calls|
    ensures var subject := r.calls[i].subject;
            var full := !Tracked(r, l, i, subject) && |TrackedSubjects(r, l, i)| >= l.maxTracked;
            && (r.verdicts[i].TableFull? <==> full)
            && (r.verdicts[i].Admitted? <==> !full && Used(r, l, i, subject) < l.limit)
            && (r.verdicts[i].OverLimit? <==> !full && Used(r, l, i, subject) >= l.limit)
  {
    assert StepOf(r, l, i);
    LiveIsTracked(r, l, i, r.calls[i].subject);
    LiveSubjectsAreTracked(r, l, i);
    if !r.verdicts[i].TableFull? {
      BucketsTell(r, l, i, r.calls[i].subject);
      CountedCallTells(r, l, i);
    }
  }
}
