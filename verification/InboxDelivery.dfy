/**
 * What happens to one stored command over a whole run.
 *
 * The history of a row is read off the run: one entry whenever a claim handed
 * it out, an acknowledgement settled it or a cancellation retracted it.
 */
module InboxDelivery {
  import opened Common
  import opened Inbox
  import opened InboxProtocol
  import opened InboxQuota

  datatype Event = Delivered(at: int) | Acked(attempt: nat) | Retracted(at: int)

  /** What one step does to row `s`; every step does at most one thing to a row. */
  function EventsOf(cfg: Config, x: State, st: Step, s: nat): seq<Event> {
    if s !in x.rows || s !in Apply(cfg, x, st).rows || Apply(cfg, x, st).rows[s] == x.rows[s] then []
    else if st.Claim? then [Delivered(st.now)]
    else if st.Acknowledge? then [Acked(st.attempt)]
    else if st.Cancel? then [Retracted(st.now)]
    else []
  }

  function History(cfg: Config, x: State, steps: seq<Step>, s: nat): seq<Event>
    decreases |steps|
  {
    if steps == [] then []
    else
      var init := steps[..|steps| - 1];
      History(cfg, x, init, s) + EventsOf(cfg, Run(cfg, x, init), steps[|steps| - 1], s)
  }

  function Deliveries(h: seq<Event>): nat {
    if h == [] then 0
    else Deliveries(h[..|h| - 1]) + (if h[|h| - 1].Delivered? then 1 else 0)
  }

  /** Delivery safety of a history under a fixed policy. */
  ghost predicate SafeHistory(cfg: Config, h: seq<Event>) {
    && Deliveries(h) <= cfg.maxAttempts
    && (forall i, j :: 0 <= i < j < |h| && h[j].Delivered? ==>
          h[i].Delivered? && h[j].at - h[i].at >= cfg.redeliveryAfter)
    && (forall i, j :: 0 <= i < |h| && 0 <= j < |h| && h[i].Retracted? ==>
          !h[j].Delivered? && (h[j].Acked? ==> h[j].attempt == 0))
  }

  /** The row's delivery columns are exactly what its history says. */
  ghost predicate RowMatches(r: Row, h: seq<Event>) {
    && r.attempts == Deliveries(h)
    && (r.lastDelivered.None? <==> Deliveries(h) == 0)
    && (r.lastDelivered.Some? ==>
          && (forall i :: 0 <= i < |h| && h[i].Delivered? ==> h[i].at <= r.lastDelivered.value)
          && (exists i :: 0 <= i < |h| && h[i] == Delivered(r.lastDelivered.value)))
    && (r.acknowledgedAt.Some? <==> exists i :: 0 <= i < |h| && h[i].Acked?)
    && (r.cancelledAt.Some? <==> exists i :: 0 <= i < |h| && h[i].Retracted?)
    && (forall i :: 0 <= i < |h| && h[i].Retracted? ==> r.cancelledAt == Some(h[i].at))
  }

  ghost predicate Tracked(cfg: Config, x: State, s: nat, h: seq<Event>) {
    && SafeHistory(cfg, h)
    && AckedAttemptsWereReached(h)
    && (s in x.rows ==> RowMatches(x.rows[s], h))
    && (s >= x.nextSeq ==> h == [])
    && (forall i :: 0 <= i < |x.sessions| && x.sessions[i].Inserted? && x.sessions[i].sequence == s ==> h == [])
  }

  lemma {:induction false} NoDeliveryCounted(h: seq<Event>)
    ensures Deliveries(h) == 0 <==> forall i :: 0 <= i < |h| ==> !h[i].Delivered?
  {
    if h != [] {
      NoDeliveryCounted(h[..|h| - 1]);
      if Deliveries(h) == 0 {
        forall i | 0 <= i < |h| ensures !h[i].Delivered? {
          if i < |h| - 1 {
            assert h[..|h| - 1][i] == h[i];
          }
        }
      }
    }
  }

  lemma DeliveriesOfOneMore(h: seq<Event>, e: Event)
    ensures Deliveries(h + [e]) == Deliveries(h) + (if e.Delivered? then 1 else 0)
  {
    assert (h + [e])[..|h|] == h;
  }

  /** An eligible row has a history of deliveries only, the last of them long enough ago. */
  lemma EligibleHistory(cfg: Config, r: Row, h: seq<Event>, agentId: string, now: nat, i: nat)
    requires RowMatches(r, h)
    requires Eligible(r, PollOf(cfg, agentId, now))
    requires i < |h|
    ensures h[i].Delivered? && now - h[i].at >= cfg.redeliveryAfter
  {
    assert !h[i].Acked? && !h[i].Retracted?;
    NoDeliveryCounted(h);
  }

  /** An eligible row may be handed out once more. */
  lemma DeliveryIsSafe(cfg: Config, r: Row, h: seq<Event>, agentId: string, now: nat)
    requires SafeHistory(cfg, h) && RowMatches(r, h)
    requires Eligible(r, PollOf(cfg, agentId, now))
    ensures SafeHistory(cfg, h + [Delivered(now)])
  {
    var g := h + [Delivered(now)];
    DeliveriesOfOneMore(h, Delivered(now));
    forall i | 0 <= i < |h|
      ensures g[i] == h[i] && h[i].Delivered? && now - h[i].at >= cfg.redeliveryAfter
    {
      EligibleHistory(cfg, r, h, agentId, now, i);
    }
  }

  lemma DeliveryIsRecorded(cfg: Config, r: Row, h: seq<Event>, agentId: string, now: nat)
    requires RowMatches(r, h)
    requires Eligible(r, PollOf(cfg, agentId, now))
    ensures RowMatches(r.(attempts := r.attempts + 1, lastDelivered := Some(now)), h + [Delivered(now)])
  {
    var g := h + [Delivered(now)];
    DeliveriesOfOneMore(h, Delivered(now));
    forall i | 0 <= i < |g| ensures g[i].Delivered? && g[i].at <= now {
      if i < |h| {
        EligibleHistory(cfg, r, h, agentId, now, i);
      }
    }
  }

  lemma AckIsSafe(cfg: Config, r: Row, h: seq<Event>, attempt: nat, now: int)
    requires SafeHistory(cfg, h) && RowMatches(r, h)
    requires r.attempts >= attempt
    ensures SafeHistory(cfg, h + [Acked(attempt)])
    ensures RowMatches(r.(acknowledgedAt := Some(now)), h + [Acked(attempt)])
  {
    var g := h + [Acked(attempt)];
    DeliveriesOfOneMore(h, Acked(attempt));
    NoDeliveryCounted(h);
    assert forall i :: 0 <= i < |h| ==> g[i] == h[i];
    assert g[|h|].Acked?;
    if exists i :: 0 <= i < |g| && g[i].Retracted? {
      var i :| 0 <= i < |g| && g[i].Retracted?;
      assert h[i].Retracted?;
    }
  }

  /** A never-delivered row: nothing in its history but acknowledgements of attempt zero. */
  lemma {:induction false} CancelIsSafe(cfg: Config, r: Row, h: seq<Event>, now: int)
    requires SafeHistory(cfg, h) && RowMatches(r, h)
    requires r.attempts == 0 && r.cancelledAt.None?
    requires AckedAttemptsWereReached(h)
    ensures SafeHistory(cfg, h + [Retracted(now)])
    ensures RowMatches(r.(cancelledAt := Some(now)), h + [Retracted(now)])
  {
    var g := h + [Retracted(now)];
    DeliveriesOfOneMore(h, Retracted(now));
    NoDeliveryCounted(h);
    assert forall i :: 0 <= i < |h| ==> g[i] == h[i];
    assert g[|h|].Retracted?;
  }

  /** An acknowledgement names an attempt that had been made when it arrived. */
  ghost predicate AckedAttemptsWereReached(h: seq<Event>) {
    forall i :: 0 <= i < |h| && h[i].Acked? ==> h[i].attempt <= Deliveries(h)
  }

  /** What the row of an active step turns into, and why the step was allowed. */
  lemma EventExplained(cfg: Config, x: State, st: Step, s: nat)
    requires EventsOf(cfg, x, st, s) != []
    ensures s in x.rows && s in Apply(cfg, x, st).rows
    ensures st.Claim? || st.Acknowledge? || st.Cancel?
    ensures st.Claim? ==>
      && MayRead(x.rows, st.scopes, s)
      && Eligible(x.rows[s], PollOf(cfg, st.agentId, st.now))
      && Apply(cfg, x, st).rows[s]
         == x.rows[s].(attempts := x.rows[s].attempts + 1, lastDelivered := Some(st.now))
    ensures st.Acknowledge? ==>
      && KeyOf(x.rows[s].command) == st.key && x.rows[s].command.agentId == st.agentId
      && x.rows[s].attempts >= st.attempt && Apply(cfg, x, st).rows[s] == x.rows[s].(acknowledgedAt := Some(st.now))
    ensures st.Cancel? ==>
      && KeyOf(x.rows[s].command) == st.key && x.rows[s].cancelledAt.None?
      && x.rows[s].attempts == 0 && Apply(cfg, x, st).rows[s] == x.rows[s].(cancelledAt := Some(st.now))
  {
    if st.Claim? {
      assert s in Claimed(cfg, x, st);
    }
  }

  /** Without an entry the row is as it was, gone, or newly committed. */
  lemma NoEventNoChange(cfg: Config, x: State, st: Step, s: nat)
    requires EventsOf(cfg, x, st, s) == []
    requires s in x.rows && s in Apply(cfg, x, st).rows
    requires InsertsFresh(x)
    ensures Apply(cfg, x, st).rows[s] == x.rows[s]
  {
  }

  /** Where a row that was not there before can come from. */
  lemma NewRowComesFromCommit(cfg: Config, x: State, st: Step, s: nat)
    requires s !in x.rows && s in Apply(cfg, x, st).rows
    ensures exists i :: 0 <= i < |x.sessions| && x.sessions[i].Inserted? && x.sessions[i].sequence == s
                        && Apply(cfg, x, st).rows[s] == NewRow(x.sessions[i].cmd)
  {
    if IsTableStep(st) {
      TableStepsKeepCommands(cfg, x, st);
    } else {
      RecordStepMoves(cfg, x, st);
    }
  }

  /** No uncommitted insert has drawn this sequence. */
  ghost predicate NotInFlight(x: State, s: nat) {
    forall i :: 0 <= i < |x.sessions| && x.sessions[i].Inserted? ==> x.sessions[i].sequence != s
  }

  /** Sequences of uncommitted rows are old ones or the next one to be drawn. */
  lemma InsertsAreOldOrNext(cfg: Config, x: State, st: Step, s: nat)
    requires s < x.nextSeq
    requires NotInFlight(x, s)
    ensures NotInFlight(Apply(cfg, x, st), s)
  {
    if !IsTableStep(st) {
      RecordStepMoves(cfg, x, st);
    }
  }

  lemma NextSeqStep(cfg: Config, x: State, st: Step)
    ensures x.nextSeq <= Apply(cfg, x, st).nextSeq
  {
    if !IsTableStep(st) {
      RecordStepMoves(cfg, x, st);
    }
  }

  lemma SessionsStayTracked(cfg: Config, x: State, st: Step, s: nat, h: seq<Event>)
    requires Tracked(cfg, x, s, h)
    ensures var y := Apply(cfg, x, st);
            && (s >= y.nextSeq ==> h == [])
            && (forall i :: 0 <= i < |y.sessions| && y.sessions[i].Inserted? && y.sessions[i].sequence == s ==> h == [])
  {
    NextSeqStep(cfg, x, st);
    if s < x.nextSeq && h != [] {
      InsertsAreOldOrNext(cfg, x, st, s);
    }
  }

  lemma ReachedStaysReached(h: seq<Event>, e: Event)
    requires AckedAttemptsWereReached(h)
    requires e.Acked? ==> e.attempt <= Deliveries(h)
    ensures AckedAttemptsWereReached(h + [e])
  {
    DeliveriesOfOneMore(h, e);
    var g := h + [e];
    forall i | 0 <= i < |g| && g[i].Acked? ensures g[i].attempt <= Deliveries(g) {
      if i < |h| {
        assert h[i].Acked?;
      }
    }
  }

  lemma ActiveStepIsTracked(cfg: Config, x: State, st: Step, s: nat, h: seq<Event>)
    requires Good(cfg, x) && Tracked(cfg, x, s, h)
    requires EventsOf(cfg, x, st, s) != []
    ensures Tracked(cfg, Apply(cfg, x, st), s, h + EventsOf(cfg, x, st, s))
  {
    EventExplained(cfg, x, st, s);
    ReachedStaysReached(h, EventsOf(cfg, x, st, s)[0]);
    if st.Claim? {
      DeliveryIsSafe(cfg, x.rows[s], h, st.agentId, st.now);
      DeliveryIsRecorded(cfg, x.rows[s], h, st.agentId, st.now);
    } else if st.Acknowledge? {
      AckIsSafe(cfg, x.rows[s], h, st.attempt, st.now);
    } else {
      CancelIsSafe(cfg, x.rows[s], h, st.now);
    }
  }

  lemma QuietStepIsTracked(cfg: Config, x: State, st: Step, s: nat, h: seq<Event>)
    requires Good(cfg, x) && Tracked(cfg, x, s, h)
    requires EventsOf(cfg, x, st, s) == []
    ensures Tracked(cfg, Apply(cfg, x, st), s, h)
  {
    var y := Apply(cfg, x, st);
    SessionsStayTracked(cfg, x, st, s, h);
    if s in y.rows && s in x.rows {
      NoEventNoChange(cfg, x, st, s);
    } else if s in y.rows {
      NewRowComesFromCommit(cfg, x, st, s);
    }
  }

  lemma {:induction false} EveryRunIsTracked(cfg: Config, sessions: nat, steps: seq<Step>, s: nat)
    ensures Good(cfg, Run(cfg, Init(sessions), steps))
    ensures Tracked(cfg, Run(cfg, Init(sessions), steps), s, History(cfg, Init(sessions), steps, s))
    decreases |steps|
  {
    InitIsGood(cfg, sessions);
    EveryRunIsGood(cfg, Init(sessions), steps);
    if steps != [] {
      var init, st := steps[..|steps| - 1], steps[|steps| - 1];
      EveryRunIsTracked(cfg, sessions, init, s);
      var x, h := Run(cfg, Init(sessions), init), History(cfg, Init(sessions), init, s);
      if EventsOf(cfg, x, st, s) == [] {
        QuietStepIsTracked(cfg, x, st, s, h);
        assert h + [] == h;
      } else {
        ActiveStepIsTracked(cfg, x, st, s, h);
      }
    }
  }

  /**
   * Over every run, for every row: at most `maxAttempts` deliveries, each at
   * least the redelivery window after every earlier one, none after an
   * acknowledgement or a cancellation; a cancelled row was never delivered and
   * only ever acknowledged for attempt zero. The stored columns agree.
   */
  lemma {:induction false} DeliverySafety(cfg: Config, sessions: nat, steps: seq<Step>, s: nat)
    ensures var x, h := Run(cfg, Init(sessions), steps), History(cfg, Init(sessions), steps, s);
            SafeHistory(cfg, h) && (s in x.rows ==> RowMatches(x.rows[s], h))
  {
    EveryRunIsTracked(cfg, sessions, steps, s);
  }

  // ------------------------------------------------------- handed means delivered

  ghost predicate SessionsRecordable(sessions: seq<Session>) {
    forall i :: 0 <= i < |sessions| && !sessions[i].Idle? && !sessions[i].Answered? ==>
      IsRecordable(sessions[i].cmd)
  }

  ghost predicate CommandsRecordable(x: State) {
    StoredRecordable(x.rows) && SessionsRecordable(x.sessions)
  }

  lemma SemanticIsRecordable(c: Command, n: nat)
    requires IsRecordable(c)
    ensures IsRecordable(c.(deliveryAttempt := n))
  {
  }

  lemma SessionsStayRecordable(cfg: Config, x: State, st: Step)
    requires SessionsRecordable(x.sessions)
    ensures SessionsRecordable(Apply(cfg, x, st).sessions)
  {
    if !IsTableStep(st) && st.session < |x.sessions| {
      RecordStepMoves(cfg, x, st);
    }
  }

  lemma SameCommandsKeepsRecordable(before: Table, after: Table)
    requires SameCommands(before, after) && StoredRecordable(before)
    ensures StoredRecordable(after)
  {
    forall s | s in after ensures IsRecordable(after[s].command) && after[s].command.deliveryAttempt == 0 {
      assert after[s].command == before[s].command;
    }
  }

  lemma CommitKeepsRecordable(rows: Table, s: nat, cmd: Command)
    requires StoredRecordable(rows) && IsRecordable(cmd)
    ensures StoredRecordable(rows[s := NewRow(cmd)])
  {
    SemanticIsRecordable(cmd, 0);
  }

  lemma MoveKeepsRecordable(cfg: Config, x: State, y: State, i: nat)
    requires CommandsRecordable(x)
    requires i < |x.sessions| && Moves(cfg, x, y, i)
    ensures StoredRecordable(y.rows)
  {
    if Commits(x, y, i) {
      CommitKeepsRecordable(x.rows, x.sessions[i].sequence, x.sessions[i].cmd);
    }
  }

  lemma StepKeepsRecordable(cfg: Config, x: State, st: Step)
    requires CommandsRecordable(x)
    ensures CommandsRecordable(Apply(cfg, x, st))
  {
    SessionsStayRecordable(cfg, x, st);
    if IsTableStep(st) {
      TableStepsKeepCommands(cfg, x, st);
      SameCommandsKeepsRecordable(x.rows, Apply(cfg, x, st).rows);
    } else {
      RecordStepMoves(cfg, x, st);
      if st.session < |x.sessions| {
        MoveKeepsRecordable(cfg, x, Apply(cfg, x, st), st.session);
      }
    }
  }

  lemma {:induction false} EveryRunIsRecordable(cfg: Config, sessions: nat, steps: seq<Step>)
    ensures CommandsRecordable(Run(cfg, Init(sessions), steps))
    decreases |steps|
  {
    if steps != [] {
      EveryRunIsRecordable(cfg, sessions, steps[..|steps| - 1]);
      StepKeepsRecordable(cfg, Run(cfg, Init(sessions), steps[..|steps| - 1]), steps[|steps| - 1]);
    }
  }

  lemma HandedIsRecordable(rows: Table, ids: seq<nat>, now: int)
    requires StoredRecordable(rows)
    requires forall i :: 0 <= i < |ids| ==> ids[i] in rows
    ensures AllRecordable(HandedAll(Deliver(rows, ids, now), ids))
  {
    var cs := HandedAll(Deliver(rows, ids, now), ids);
    forall i | 0 <= i < |ids| ensures IsRecordable(cs[i]) {
      assert cs[i] == rows[ids[i]].command.(deliveryAttempt := cs[i].deliveryAttempt);
      SemanticIsRecordable(rows[ids[i]].command, cs[i].deliveryAttempt);
    }
  }

  /** A claim in a reachable state never trips over a malformed stored row. */
  lemma ClaimNeverAborts(rows: Table, nextSeq: nat, q: Poll, locked: set<nat>, scopes: Scope -> bool, limit: nat)
    requires StoredRecordable(rows)
    requires q.now < I64_LIMIT && q.redeliveryAfter < I64_LIMIT
    ensures var ids := ClaimIds(rows, nextSeq, q, locked, scopes, limit);
            ClaimTable(rows, nextSeq, q, locked, scopes, limit) == Deliver(rows, ids, q.now)
  {
    HandedIsRecordable(rows, ClaimIds(rows, nextSeq, q, locked, scopes, limit), q.now);
  }

  /** A history gains a delivery exactly when the claim hands the row out. */
  lemma {:induction false} HandedOutExactly(cfg: Config, sessions: nat, steps: seq<Step>, st: Step, s: nat)
    requires st.Claim? && st.now < I64_LIMIT && cfg.redeliveryAfter < I64_LIMIT
    ensures var x := Run(cfg, Init(sessions), steps);
            EventsOf(cfg, x, st, s) == (if s in Claimed(cfg, x, st) then [Delivered(st.now)] else [])
  {
    var x := Run(cfg, Init(sessions), steps);
    EveryRunIsRecordable(cfg, sessions, steps);
    ClaimNeverAborts(x.rows, x.nextSeq, PollOf(cfg, st.agentId, st.now), st.locked, st.scopes, st.limit);
  }

  ghost predicate Ever(h: seq<Event>, p: Event -> bool) {
    exists i :: 0 <= i < |h| && p(h[i])
  }

  /**
   * Over every run, an acknowledgement takes effect exactly on the row it names,
   * for that row's own agent, once, and for no more attempts than were made.
   */
  lemma {:induction false} AcknowledgedExactly(cfg: Config, sessions: nat, steps: seq<Step>, st: Step, s: nat)
    requires st.Acknowledge? && st.now < I64_LIMIT
    requires s in Run(cfg, Init(sessions), steps).rows
    ensures var x, h := Run(cfg, Init(sessions), steps), History(cfg, Init(sessions), steps, s);
            var c := x.rows[s].command;
            EventsOf(cfg, x, st, s) == [Acked(st.attempt)] <==>
            Names(st.key, c) && c.agentId == st.agentId
            && !Ever(h, (e: Event) => e.Acked?) && st.attempt <= Deliveries(h)
  {
    DeliverySafety(cfg, sessions, steps, s);
  }

  /** Over every run, a cancellation takes effect exactly on a row never handed out and not yet cancelled. */
  lemma {:induction false} CancelledExactly(cfg: Config, sessions: nat, steps: seq<Step>, st: Step, s: nat)
    requires st.Cancel? && st.now < I64_LIMIT
    requires s in Run(cfg, Init(sessions), steps).rows
    ensures var x, h := Run(cfg, Init(sessions), steps), History(cfg, Init(sessions), steps, s);
            EventsOf(cfg, x, st, s) == [Retracted(st.now)] <==>
            Names(st.key, x.rows[s].command)
            && !Ever(h, (e: Event) => e.Delivered?) && !Ever(h, (e: Event) => e.Retracted?)
  {
    var h := History(cfg, Init(sessions), steps, s);
    DeliverySafety(cfg, sessions, steps, s);
    NoDeliveryCounted(h);
  }

  // --------------------------------------------------- identity and retention

  lemma {:induction false} NextSeqGrows(cfg: Config, x: State, steps: seq<Step>)
    ensures x.nextSeq <= Run(cfg, x, steps).nextSeq
    decreases |steps|
  {
    if steps != [] {
      NextSeqGrows(cfg, x, steps[..|steps| - 1]);
      NextSeqStep(cfg, Run(cfg, x, steps[..|steps| - 1]), steps[|steps| - 1]);
    }
  }

  /** A sequence once stored is never again an uncommitted insert. */
  lemma {:induction false} StoredNeverInFlight(cfg: Config, x: State, steps: seq<Step>, s: nat)
    requires Good(cfg, x) && s in x.rows
    ensures NotInFlight(Run(cfg, x, steps), s)
    decreases |steps|
  {
    if steps != [] {
      var init := steps[..|steps| - 1];
      StoredNeverInFlight(cfg, x, init, s);
      NextSeqGrows(cfg, x, init);
      InsertsAreOldOrNext(cfg, Run(cfg, x, init), steps[|steps| - 1], s);
    }
  }

  /** A sequence that is stored after a step, and was not waiting to be, was stored before it. */
  lemma StoredOnlyIfStored(cfg: Config, x: State, st: Step, s: nat)
    requires NotInFlight(x, s)
    requires s in Apply(cfg, x, st).rows
    ensures s in x.rows
  {
    if s !in x.rows {
      NewRowComesFromCommit(cfg, x, st, s);
    }
  }

  /**
   * What the history says about retirement: a cancelled row goes when its
   * cancellation is old enough, any other row when it was handed out, is settled
   * and every delivery of it is old enough.
   */
  ghost predicate WindowOver(cfg: Config, h: seq<Event>, now: int, retention: int) {
    if exists i :: 0 <= i < |h| && h[i].Retracted? then
      exists i :: 0 <= i < |h| && h[i].Retracted? && now - h[i].at >= retention
    else
      && Deliveries(h) > 0
      && (Deliveries(h) >= cfg.maxAttempts || exists i :: 0 <= i < |h| && h[i].Acked?)
      && (forall i :: 0 <= i < |h| && h[i].Delivered? ==> now - h[i].at >= retention)
  }

  lemma RetiredMeansWindowOver(cfg: Config, r: Row, h: seq<Event>, now: int, retention: int)
    requires RowMatches(r, h)
    ensures Retired(r, now, retention, cfg.maxAttempts) <==> WindowOver(cfg, h, now, retention)
  {
    if r.lastDelivered.Some? {
      var i :| 0 <= i < |h| && h[i] == Delivered(r.lastDelivered.value);
      assert h[i].Delivered?;
    }
  }

  /**
   * Over every run, a sweep removes a row exactly when its idempotency window is
   * over. A row that was acknowledged without ever being handed out has none, and
   * stays.
   */
  lemma {:induction false} SweepWaitsOutTheWindow(
    cfg: Config, sessions: nat, steps: seq<Step>, now: nat, retention: nat, s: nat)
    requires s in Run(cfg, Init(sessions), steps).rows
    requires now < I64_LIMIT && retention < I64_LIMIT
    ensures var x := Run(cfg, Init(sessions), steps);
            s !in Apply(cfg, x, Maintain(now, retention)).rows
            <==> WindowOver(cfg, History(cfg, Init(sessions), steps, s), now, retention)
  {
    var x, h := Run(cfg, Init(sessions), steps), History(cfg, Init(sessions), steps, s);
    DeliverySafety(cfg, sessions, steps, s);
    RetiredMeansWindowOver(cfg, x.rows[s], h, now, retention);
  }

  /**
   * A cancelled row can still be acknowledged by its agent, exactly by naming
   * attempt zero.
   */
  lemma {:induction false} CancelledIsAcknowledgedOnlyAtZero(
    cfg: Config, sessions: nat, steps: seq<Step>, s: nat, attempt: nat, now: nat)
    requires var rows := Run(cfg, Init(sessions), steps).rows;
             s in rows && rows[s].cancelledAt.Some? && rows[s].acknowledgedAt.None?
    requires now < I64_LIMIT
    ensures var x := Run(cfg, Init(sessions), steps);
            var c := x.rows[s].command;
            Apply(cfg, x, Acknowledge(KeyOf(c), c.agentId, attempt, now)).rows[s].acknowledgedAt.Some?
            <==> attempt == 0
  {
    var h := History(cfg, Init(sessions), steps, s);
    DeliverySafety(cfg, sessions, steps, s);
    var j :| 0 <= j < |h| && h[j].Retracted?;
    NoDeliveryCounted(h);
  }

  /** The sweep removes no row any agent could still be handed under the same attempt limit. */
  lemma MaintainKeepsClaimable(rows: Table, now: nat, retention: nat, q: Poll, s: nat)
    requires s in rows && Eligible(rows[s], q)
    ensures var after := MaintainTable(rows, now, retention, q.maxAttempts);
            s in after && after[s] == rows[s]
  {
  }
}
