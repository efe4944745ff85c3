/**
 * The reported status of a stored command over a whole run. It only moves
 * forward, with one exception that is stated exactly: a command acknowledged
 * without ever being handed out can still be cancelled.
 */
module InboxStatus {
  import opened Inbox
  import opened InboxProtocol
  import opened InboxQuota
  import opened InboxDelivery
  import opened InboxCeiling
  import opened InboxSequential

  predicate Cancels(st: Step, key: Key) {
    st.Cancel? && st.key == key && st.now < I64_LIMIT
  }

  predicate EverCancels(steps: seq<Step>, key: Key) {
    exists k :: 0 <= k < |steps| && Cancels(steps[k], key)
  }

  /** Acknowledged for attempt zero: settled, but never handed out. */
  predicate AcknowledgedUndelivered(r: Row) {
    r.acknowledgedAt.Some? && r.cancelledAt.None? && r.attempts == 0
  }

  /** How the delivery columns of one row may change, and when a settled row is still cancelled. */
  ghost predicate Evolves(r: Row, r': Row, cancels: bool) {
    && r'.command == r.command
    && r.attempts <= r'.attempts
    && (r.acknowledgedAt.Some? ==> r'.acknowledgedAt.Some? && r'.attempts == r.attempts)
    && (r.cancelledAt.Some? ==> r'.cancelledAt.Some?)
    && (r.cancelledAt.None? && r'.cancelledAt.Some? ==> r.attempts == 0)
    && (AcknowledgedUndelivered(r) ==> (r'.cancelledAt.Some? <==> cancels))
  }

  lemma EvolvesTwice(a: Row, b: Row, c: Row, p: bool, q: bool)
    requires Evolves(a, b, p) && Evolves(b, c, q)
    ensures Evolves(a, c, p || q)
  {
  }

  lemma EvolutionIsForward(r: Row, r': Row, cancels: bool, maxAttempts: nat)
    requires Evolves(r, r', cancels)
    ensures Forward(StatusOf(r, maxAttempts), StatusOf(r', maxAttempts)) <==> !(AcknowledgedUndelivered(r) && cancels)
  {
  }

  lemma StepEvolves(cfg: Config, x: State, st: Step, s: nat)
    requires InsertsFresh(x)
    requires s in x.rows && s in Apply(cfg, x, st).rows
    ensures Evolves(x.rows[s], Apply(cfg, x, st).rows[s], Cancels(st, KeyOf(x.rows[s].command)))
  {
    if EventsOf(cfg, x, st, s) == [] {
      NoEventNoChange(cfg, x, st, s);
    } else {
      EventExplained(cfg, x, st, s);
    }
  }

  lemma EverCancelsStep(steps: seq<Step>, key: Key)
    requires steps != []
    ensures EverCancels(steps, key) <==>
            EverCancels(steps[..|steps| - 1], key) || Cancels(steps[|steps| - 1], key)
  {
    var init := steps[..|steps| - 1];
    if EverCancels(steps, key) && !Cancels(steps[|steps| - 1], key) {
      var k :| 0 <= k < |steps| && Cancels(steps[k], key);
      assert Cancels(init[k], key);
    }
    if EverCancels(init, key) {
      var k :| 0 <= k < |init| && Cancels(init[k], key);
      assert Cancels(steps[k], key);
    }
  }

  lemma {:induction false} RunEvolves(cfg: Config, x: State, steps: seq<Step>, s: nat)
    requires Good(cfg, x)
    requires s in x.rows && s in Run(cfg, x, steps).rows
    ensures Evolves(x.rows[s], Run(cfg, x, steps).rows[s], EverCancels(steps, KeyOf(x.rows[s].command)))
    decreases |steps|
  {
    if steps != [] {
      var init, st := steps[..|steps| - 1], steps[|steps| - 1];
      var y := Run(cfg, x, init);
      EveryRunIsGood(cfg, x, init);
      StoredNeverInFlight(cfg, x, init, s);
      StoredOnlyIfStored(cfg, y, st, s);
      RunEvolves(cfg, x, init, s);
      StepEvolves(cfg, y, st, s);
      EverCancelsStep(steps, KeyOf(x.rows[s].command));
      EvolvesTwice(x.rows[s], y.rows[s], Run(cfg, x, steps).rows[s],
                   EverCancels(init, KeyOf(x.rows[s].command)), Cancels(st, KeyOf(x.rows[s].command)));
    }
  }

  /**
   * Between any two points of a run at which a sequence is stored it is the same
   * command, and its reported status has moved forward, terminal statuses staying
   * as they are, unless it was acknowledged without a delivery at the first point
   * and its key is cancelled in between; then, and only then, it has not.
   */
  lemma {:induction false} StatusMovesForwardExactlyWhen(
    cfg: Config, sessions: nat, before: seq<Step>, steps: seq<Step>, s: nat)
    requires s in Run(cfg, Init(sessions), before).rows
    requires s in Run(cfg, Run(cfg, Init(sessions), before), steps).rows
    ensures var x := Run(cfg, Init(sessions), before);
            var r, r' := x.rows[s], Run(cfg, x, steps).rows[s];
            && r'.command == r.command
            && (Forward(StatusOf(r, cfg.maxAttempts), StatusOf(r', cfg.maxAttempts))
                <==> !(AcknowledgedUndelivered(r) && EverCancels(steps, KeyOf(r.command))))
  {
    var x := Run(cfg, Init(sessions), before);
    InitIsGood(cfg, sessions);
    EveryRunIsGood(cfg, Init(sessions), before);
    RunEvolves(cfg, x, steps, s);
    EvolutionIsForward(x.rows[s], Run(cfg, x, steps).rows[s],
                       EverCancels(steps, KeyOf(x.rows[s].command)), cfg.maxAttempts);
  }

  // -------------------------------------------- what the service in front allows

  /** Every acknowledgement names a real attempt, as the service demands. */
  predicate RealAttemptsOnly(steps: seq<Step>) {
    forall k :: 0 <= k < |steps| && steps[k].Acknowledge? ==> steps[k].attempt >= 1
  }

  lemma {:induction false} NoneAcknowledgedUndelivered(cfg: Config, sessions: nat, steps: seq<Step>, s: nat)
    requires RealAttemptsOnly(steps) && s in Run(cfg, Init(sessions), steps).rows
    ensures !AcknowledgedUndelivered(Run(cfg, Init(sessions), steps).rows[s])
    decreases |steps|
  {
    if steps != [] {
      var init, st := steps[..|steps| - 1], steps[|steps| - 1];
      var x := Run(cfg, Init(sessions), init);
      InitIsGood(cfg, sessions);
      EveryRunIsGood(cfg, Init(sessions), init);
      if s !in x.rows {
        NewRowComesFromCommit(cfg, x, st, s);
      } else {
        NoneAcknowledgedUndelivered(cfg, sessions, init, s);
        if EventsOf(cfg, x, st, s) == [] {
          NoEventNoChange(cfg, x, st, s);
        } else {
          EventExplained(cfg, x, st, s);
        }
      }
    }
  }

  /** Behind a service that refuses attempt zero, the status of a stored command only moves forward. */
  lemma {:induction false} StatusOnlyMovesForward(
    cfg: Config, sessions: nat, before: seq<Step>, steps: seq<Step>, s: nat)
    requires RealAttemptsOnly(before)
    requires s in Run(cfg, Init(sessions), before).rows
    requires s in Run(cfg, Run(cfg, Init(sessions), before), steps).rows
    ensures var x := Run(cfg, Init(sessions), before);
            Forward(StatusOf(x.rows[s], cfg.maxAttempts), StatusOf(Run(cfg, x, steps).rows[s], cfg.maxAttempts))
  {
    StatusMovesForwardExactlyWhen(cfg, sessions, before, steps, s);
    NoneAcknowledgedUndelivered(cfg, sessions, before, s);
  }

  // ---------------------------------------------------------------- the exception

  /** Record `c` on the only connection, then acknowledge attempt zero of it. */
  function RecordAndAcknowledge(c: Command, now: nat): seq<Step> {
    Transaction(0, c) + [Commit(0)] + [Acknowledge(KeyOf(c), c.agentId, 0, now)]
  }

  lemma FreshRecord(cfg: Config, c: Command)
    requires ValidConfig(cfg) && IsRecordable(c)
    ensures Run(cfg, Init(1), Transaction(0, c) + [Commit(0)]).rows == map[1 := NewRow(c)]
  {
    var x := Init(1);
    assert ScopeRows(x.rows, ScopeOf(c)) == {};
    UndisturbedSuccess(cfg, x, 0, c);
  }

  /** The exception happens: a row that reported Acknowledged reports Cancelled one step later. */
  lemma AcknowledgedTurnsCancelled(cfg: Config, c: Command, now: nat)
    requires ValidConfig(cfg) && IsRecordable(c) && now < I64_LIMIT
    ensures var x := Run(cfg, Init(1), RecordAndAcknowledge(c, now));
            var y := Apply(cfg, x, Cancel(KeyOf(c), now));
            && 1 in x.rows && StatusOf(x.rows[1], cfg.maxAttempts) == StatusAcknowledged
            && 1 in y.rows && StatusOf(y.rows[1], cfg.maxAttempts) == StatusCancelled
  {
    FreshRecord(cfg, c);
    RunOfOne(cfg, Init(1), Transaction(0, c) + [Commit(0)], Acknowledge(KeyOf(c), c.agentId, 0, now));
  }
}
