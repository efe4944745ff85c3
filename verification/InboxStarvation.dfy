/**
 * No command waits forever behind others: every poll that misses it spends
 * `limit` of the bounded delivery attempts left on strictly earlier rows.
 */
module InboxStarvation {
  import opened Inbox
  import opened InboxStore
  import opened InboxProtocol
  import opened InboxQuota
  import opened InboxDelivery

  // -------------------------------------------------- what a missed poll took

  lemma {:induction false} AuthorisedInOrder(rows: Table, scopes: Scope -> bool, ids: seq<nat>)
    requires Ascending(ids)
    ensures Ascending(Authorised(rows, scopes, ids))
  {
    if ids != [] {
      AuthorisedInOrder(rows, scopes, ids[1..]);
      var rest := Authorised(rows, scopes, ids[1..]);
      forall k | 0 <= k < |rest| ensures ids[0] < rest[k] {
        assert rest[k] in ids[1..];
      }
    }
  }

  lemma {:induction false} AuthorisedKeeps(rows: Table, scopes: Scope -> bool, ids: seq<nat>, k: nat)
    requires k < |ids| && MayRead(rows, scopes, ids[k])
    ensures ids[k] in Authorised(rows, scopes, ids)
  {
    if k > 0 {
      AuthorisedKeeps(rows, scopes, ids[1..], k - 1);
    }
  }

  /** A claim hands its rows out oldest first, none of them twice. */
  lemma ClaimIsInOrder(rows: Table, nextSeq: nat, q: Poll, locked: set<nat>, scopes: Scope -> bool, limit: nat)
    ensures Ascending(ClaimIds(rows, nextSeq, q, locked, scopes, limit))
  {
    ScanIsCompleteAndAscending(rows, q, locked, 0, nextSeq);
    AuthorisedInOrder(rows, scopes, Scan(rows, q, locked, 0, nextSeq));
  }

  /** A claimable authorised row is left out only when `limit` rows before it filled the poll. */
  lemma ClaimTakesTheFirst(
    rows: Table, nextSeq: nat, q: Poll, locked: set<nat>, scopes: Scope -> bool, limit: nat, s: nat)
    requires 0 < s < nextSeq && Claimable(rows, q, locked, s) && MayRead(rows, scopes, s)
    ensures var ids := ClaimIds(rows, nextSeq, q, locked, scopes, limit);
            s !in ids ==> |ids| == limit && forall i :: 0 <= i < |ids| ==> ids[i] < s
  {
    var all := Scan(rows, q, locked, 0, nextSeq);
    ScanIsCompleteAndAscending(rows, q, locked, 0, nextSeq);
    AuthorisedInOrder(rows, scopes, all);
    var j :| 0 <= j < |all| && all[j] == s;
    AuthorisedKeeps(rows, scopes, all, j);
    var allowed := Authorised(rows, scopes, all);
    var k :| 0 <= k < |allowed| && allowed[k] == s;
  }

  // ------------------------------------------------------------ the potential

  predicate WaitsUncommitted(x: State, agentId: string, t: nat) {
    exists i :: 0 <= i < |x.sessions| && x.sessions[i].Inserted?
                && x.sessions[i].sequence == t && x.sessions[i].cmd.agentId == agentId
  }

  predicate StoredFor(x: State, agentId: string, t: nat) {
    t in x.rows && x.rows[t].command.agentId == agentId
  }

  /** Delivery attempts the policy still allows on sequence `t` for this agent. */
  function Owed(cfg: Config, x: State, agentId: string, t: nat): nat {
    if StoredFor(x, agentId, t) then
      if x.rows[t].attempts < cfg.maxAttempts then cfg.maxAttempts - x.rows[t].attempts else 0
    else if WaitsUncommitted(x, agentId, t) then cfg.maxAttempts
    else 0
  }

  function OwedBelow(cfg: Config, x: State, agentId: string, n: nat): nat {
    if n == 0 then 0 else OwedBelow(cfg, x, agentId, n - 1) + Owed(cfg, x, agentId, n - 1)
  }

  /** How many rows, committed or about to be, stand before sequence `n` for this agent. */
  function EarlierRows(x: State, agentId: string, n: nat): nat {
    if n == 0 then 0
    else EarlierRows(x, agentId, n - 1) + (if Present(x, agentId, n - 1) then 1 else 0)
  }

  predicate Present(x: State, agentId: string, t: nat) {
    StoredFor(x, agentId, t) || WaitsUncommitted(x, agentId, t)
  }

  lemma OwedByOne(cfg: Config, x: State, agentId: string, t: nat)
    ensures Owed(cfg, x, agentId, t) <= if Present(x, agentId, t) then cfg.maxAttempts else 0
  {
  }

  lemma {:induction false} OwedIsBounded(cfg: Config, x: State, agentId: string, n: nat)
    ensures OwedBelow(cfg, x, agentId, n) <= EarlierRows(x, agentId, n) * cfg.maxAttempts
  {
    if n > 0 {
      OwedIsBounded(cfg, x, agentId, n - 1);
      OwedByOne(cfg, x, agentId, n - 1);
      OneMoreTimes(EarlierRows(x, agentId, n - 1), cfg.maxAttempts);
    }
  }

  lemma OneMoreTimes(a: nat, b: nat)
    ensures (a + 1) * b == a * b + b
  {
  }

  function Spent(ids: seq<nat>, n: nat): nat {
    if n == 0 then 0 else Spent(ids, n - 1) + (if n - 1 in ids then 1 else 0)
  }

  lemma {:induction false} SpentCountsAll(ids: seq<nat>, n: nat)
    requires Ascending(ids) && forall i :: 0 <= i < |ids| ==> ids[i] < n
    ensures Spent(ids, n) >= |ids|
    decreases n
  {
    if n > 0 {
      if ids != [] && ids[|ids| - 1] == n - 1 {
        var rest := ids[..|ids| - 1];
        SpentCountsAll(rest, n - 1);
        SpentBySubset(rest, ids, n - 1);
      } else {
        SpentCountsAll(ids, n - 1);
      }
    }
  }

  lemma {:induction false} SpentBySubset(a: seq<nat>, b: seq<nat>, n: nat)
    requires forall t :: t in a ==> t in b
    ensures Spent(a, n) <= Spent(b, n)
  {
    if n > 0 {
      SpentBySubset(a, b, n - 1);
    }
  }

  // --------------------------------------------------- no step adds to the potential

  lemma MoveAddsNothingOwed(cfg: Config, x: State, y: State, i: nat, agentId: string, t: nat)
    requires InsertsFresh(x)
    requires i < |x.sessions| && Moves(cfg, x, y, i)
    requires t < x.nextSeq
    ensures Owed(cfg, y, agentId, t) <= Owed(cfg, x, agentId, t)
  {
    if !StoredFor(y, agentId, t) && WaitsUncommitted(y, agentId, t) {
      var j :| 0 <= j < |y.sessions| && y.sessions[j].Inserted?
               && y.sessions[j].sequence == t && y.sessions[j].cmd.agentId == agentId;
      assert y.sessions[j] == x.sessions[j];
      assert WaitsUncommitted(x, agentId, t) && t !in x.rows;
    } else if StoredFor(y, agentId, t) && t !in x.rows {
      assert Commits(x, y, i) && WaitsUncommitted(x, agentId, t);
    }
  }

  lemma TableStepAddsNothingOwed(cfg: Config, x: State, st: Step, agentId: string, t: nat)
    requires InsertsFresh(x) && IsTableStep(st)
    ensures Owed(cfg, Apply(cfg, x, st), agentId, t) <= Owed(cfg, x, agentId, t)
  {
    var y := Apply(cfg, x, st);
    TableStepsKeepCommands(cfg, x, st);
    if t in x.rows {
      assert !WaitsUncommitted(x, agentId, t);
      if t in y.rows {
        AttemptsGrow(cfg, x, st, t);
      }
    }
  }

  lemma AttemptsGrow(cfg: Config, x: State, st: Step, t: nat)
    requires IsTableStep(st) && t in x.rows && t in Apply(cfg, x, st).rows
    ensures x.rows[t].attempts <= Apply(cfg, x, st).rows[t].attempts
  {
  }

  lemma StepAddsNothingOwed(cfg: Config, x: State, st: Step, agentId: string, t: nat)
    requires InsertsFresh(x) && t < x.nextSeq
    ensures Owed(cfg, Apply(cfg, x, st), agentId, t) <= Owed(cfg, x, agentId, t)
  {
    if IsTableStep(st) {
      TableStepAddsNothingOwed(cfg, x, st, agentId, t);
    } else {
      RecordStepMoves(cfg, x, st);
      if st.session < |x.sessions| {
        MoveAddsNothingOwed(cfg, x, Apply(cfg, x, st), st.session, agentId, t);
      }
    }
  }

  lemma {:induction false} OwedBelowShrinks(cfg: Config, x: State, y: State, agentId: string, n: nat)
    requires forall t: nat :: t < n ==> Owed(cfg, y, agentId, t) <= Owed(cfg, x, agentId, t)
    ensures OwedBelow(cfg, y, agentId, n) <= OwedBelow(cfg, x, agentId, n)
  {
    if n > 0 {
      OwedBelowShrinks(cfg, x, y, agentId, n - 1);
    }
  }

  lemma StepOwesNoMore(cfg: Config, x: State, st: Step, agentId: string, n: nat)
    requires InsertsFresh(x) && n <= x.nextSeq
    ensures OwedBelow(cfg, Apply(cfg, x, st), agentId, n) <= OwedBelow(cfg, x, agentId, n)
  {
    var y := Apply(cfg, x, st);
    forall t: nat | t < n ensures Owed(cfg, y, agentId, t) <= Owed(cfg, x, agentId, t) {
      StepAddsNothingOwed(cfg, x, st, agentId, t);
    }
    OwedBelowShrinks(cfg, x, y, agentId, n);
  }

  /** A delivery uses one attempt of every row it hands out. */
  lemma {:induction false} ClaimSpends(
    cfg: Config, x: State, y: State, ids: seq<nat>, now: int, agentId: string, n: nat)
    requires y == x.(rows := Deliver(x.rows, ids, now))
    requires forall i :: 0 <= i < |ids| ==>
      StoredFor(x, agentId, ids[i]) && x.rows[ids[i]].attempts < cfg.maxAttempts
    ensures OwedBelow(cfg, y, agentId, n) + Spent(ids, n) <= OwedBelow(cfg, x, agentId, n)
  {
    if n > 0 {
      ClaimSpends(cfg, x, y, ids, now, agentId, n - 1);
      var t := n - 1;
      assert WaitsUncommitted(y, agentId, t) == WaitsUncommitted(x, agentId, t);
    }
  }

  // ---------------------------------------------------------------- the theorem

  /** Stored, never handed out, not acknowledged, not cancelled. */
  predicate Untouched(x: State, s: nat) {
    s in x.rows && x.rows[s] == NewRow(x.rows[s].command)
  }

  /** A poll of the row's own agent, allowed to see it, asking for at least `limit` rows. */
  predicate IsPollFor(cfg: Config, st: Step, c: Command, s: nat, limit: nat) {
    && st.Claim?
    && st.agentId == c.agentId
    && st.scopes(ScopeOf(c))
    && st.limit >= limit
    && s !in st.locked
    && st.now < I64_LIMIT
  }

  function PollsFor(cfg: Config, steps: seq<Step>, c: Command, s: nat, limit: nat): nat {
    if steps == [] then 0
    else PollsFor(cfg, steps[..|steps| - 1], c, s, limit)
         + (if IsPollFor(cfg, steps[|steps| - 1], c, s, limit) then 1 else 0)
  }

  ghost predicate Reachable(cfg: Config, x: State) {
    Good(cfg, x) && CommandsRecordable(x)
  }

  lemma UntouchedStays(cfg: Config, x: State, st: Step, s: nat)
    requires InsertsFresh(x) && Untouched(x, s)
    requires EventsOf(cfg, x, st, s) == []
    ensures Untouched(Apply(cfg, x, st), s) && Apply(cfg, x, st).rows[s] == x.rows[s]
  {
    if IsTableStep(st) {
      TableKeepsUntouched(cfg, x, st, s);
    } else {
      RecordStepMoves(cfg, x, st);
    }
    NoEventNoChange(cfg, x, st, s);
  }

  lemma TableKeepsUntouched(cfg: Config, x: State, st: Step, s: nat)
    requires IsTableStep(st) && Untouched(x, s)
    ensures s in Apply(cfg, x, st).rows
  {
  }

  /** A poll that misses the row is full of strictly earlier rows of its agent. */
  lemma MissFillsThePoll(cfg: Config, x: State, st: Step, s: nat, limit: nat)
    requires Reachable(cfg, x) && Untouched(x, s)
    requires 1 <= cfg.maxAttempts && cfg.redeliveryAfter < I64_LIMIT
    requires IsPollFor(cfg, st, x.rows[s].command, s, limit)
    requires EventsOf(cfg, x, st, s) == []
    ensures var ids := Claimed(cfg, x, st);
            && Apply(cfg, x, st) == x.(rows := Deliver(x.rows, ids, st.now))
            && limit <= |ids| && Ascending(ids) && forall i :: 0 <= i < |ids| ==> ids[i] < s
  {
    var q := PollOf(cfg, st.agentId, st.now);
    ClaimNeverAborts(x.rows, x.nextSeq, q, st.locked, st.scopes, st.limit);
    ClaimIsInOrder(x.rows, x.nextSeq, q, st.locked, st.scopes, st.limit);
    ClaimTakesTheFirst(x.rows, x.nextSeq, q, st.locked, st.scopes, st.limit, s);
  }

  lemma MissedPollSpends(cfg: Config, x: State, st: Step, s: nat, limit: nat)
    requires Reachable(cfg, x) && Untouched(x, s)
    requires 1 <= cfg.maxAttempts && cfg.redeliveryAfter < I64_LIMIT
    requires IsPollFor(cfg, st, x.rows[s].command, s, limit)
    requires EventsOf(cfg, x, st, s) == []
    ensures var agentId := x.rows[s].command.agentId;
            OwedBelow(cfg, Apply(cfg, x, st), agentId, s) + limit <= OwedBelow(cfg, x, agentId, s)
  {
    var ids := Claimed(cfg, x, st);
    MissFillsThePoll(cfg, x, st, s, limit);
    ClaimSpends(cfg, x, Apply(cfg, x, st), ids, st.now, st.agentId, s);
    SpentCountsAll(ids, s);
  }

  lemma StepKeepsReachable(cfg: Config, x: State, st: Step)
    requires Reachable(cfg, x)
    ensures Reachable(cfg, Apply(cfg, x, st))
  {
    StepKeepsGood(cfg, x, st);
    StepKeepsRecordable(cfg, x, st);
  }

  /** One step: the row stays untouched, and a poll that missed it was paid for by earlier rows. */
  lemma MissIsPaidFor(cfg: Config, x: State, st: Step, s: nat, limit: nat)
    requires Reachable(cfg, x) && Untouched(x, s)
    requires 1 <= cfg.maxAttempts && cfg.redeliveryAfter < I64_LIMIT
    requires EventsOf(cfg, x, st, s) == []
    ensures var y, c := Apply(cfg, x, st), x.rows[s].command;
            && Reachable(cfg, y) && Untouched(y, s) && y.rows[s].command == c
            && OwedBelow(cfg, y, c.agentId, s) + (if IsPollFor(cfg, st, c, s, limit) then limit else 0)
               <= OwedBelow(cfg, x, c.agentId, s)
  {
    UntouchedStays(cfg, x, st, s);
    StepKeepsReachable(cfg, x, st);
    StepOwesNoMore(cfg, x, st, x.rows[s].command.agentId, s);
    if IsPollFor(cfg, st, x.rows[s].command, s, limit) {
      MissedPollSpends(cfg, x, st, s, limit);
    }
  }

  ghost predicate PaidFor(cfg: Config, x: State, y: State, s: nat, paid: int)
    requires s in x.rows
  {
    && Reachable(cfg, y) && Untouched(y, s) && y.rows[s].command == x.rows[s].command
    && OwedBelow(cfg, y, x.rows[s].command.agentId, s) + paid <= OwedBelow(cfg, x, x.rows[s].command.agentId, s)
  }

  /** `limit` for every poll made for the row. */
  function Charge(cfg: Config, steps: seq<Step>, c: Command, s: nat, limit: nat): nat {
    if steps == [] then 0
    else Charge(cfg, steps[..|steps| - 1], c, s, limit)
         + (if IsPollFor(cfg, steps[|steps| - 1], c, s, limit) then limit else 0)
  }

  lemma {:induction false} ChargeIsPollsTimesLimit(cfg: Config, steps: seq<Step>, c: Command, s: nat, limit: nat)
    ensures Charge(cfg, steps, c, s, limit) == PollsFor(cfg, steps, c, s, limit) * limit
  {
    if steps != [] {
      var init := steps[..|steps| - 1];
      ChargeIsPollsTimesLimit(cfg, init, c, s, limit);
      OneMoreTimes(PollsFor(cfg, init, c, s, limit), limit);
    }
  }

  /** As long as the row stays untouched, its polls are paid for by earlier rows. */
  lemma {:induction false} MissesArePaidFor(cfg: Config, x: State, steps: seq<Step>, s: nat, limit: nat)
    requires Reachable(cfg, x) && Untouched(x, s)
    requires 1 <= cfg.maxAttempts && cfg.redeliveryAfter < I64_LIMIT
    requires History(cfg, x, steps, s) == []
    ensures PaidFor(cfg, x, Run(cfg, x, steps), s, Charge(cfg, steps, x.rows[s].command, s, limit))
    decreases |steps|
  {
    if steps != [] {
      var init, st := steps[..|steps| - 1], steps[|steps| - 1];
      MissesArePaidFor(cfg, x, init, s, limit);
      MissIsPaidFor(cfg, Run(cfg, x, init), st, s, limit);
    }
  }

  /**
   * A stored command that was never handed out, with E rows before it for its
   * agent, is handed out before its agent has polled E * maxAttempts / limit + 1
   * times, unless it is acknowledged or cancelled meanwhile. Anything else may
   * happen in between, on any connection.
   */
  lemma {:induction false} NoStarvation(
    cfg: Config, sessions: nat, before: seq<Step>, steps: seq<Step>, s: nat, limit: nat)
    requires 1 <= limit && 1 <= cfg.maxAttempts && cfg.redeliveryAfter < I64_LIMIT
    requires Untouched(Run(cfg, Init(sessions), before), s)
    requires var x := Run(cfg, Init(sessions), before);
             var c := x.rows[s].command;
             PollsFor(cfg, steps, c, s, limit) >= EarlierRows(x, c.agentId, s) * cfg.maxAttempts / limit + 1
    requires forall i :: 0 <= i < |History(cfg, Run(cfg, Init(sessions), before), steps, s)| ==>
      var e := History(cfg, Run(cfg, Init(sessions), before), steps, s)[i];
      !e.Acked? && !e.Retracted?
    ensures var h := History(cfg, Run(cfg, Init(sessions), before), steps, s);
            h != [] && h[0].Delivered?
  {
    var x := Run(cfg, Init(sessions), before);
    var c := x.rows[s].command;
    InitIsGood(cfg, sessions);
    EveryRunIsGood(cfg, Init(sessions), before);
    EveryRunIsRecordable(cfg, sessions, before);
    var budget, polls := EarlierRows(x, c.agentId, s) * cfg.maxAttempts, PollsFor(cfg, steps, c, s, limit);
    if History(cfg, x, steps, s) == [] {
      MissesArePaidFor(cfg, x, steps, s, limit);
      OwedIsBounded(cfg, x, c.agentId, s);
      ChargeIsPollsTimesLimit(cfg, steps, c, s, limit);
      EnoughPolls(budget, limit, polls);
      assert false;
    }
  }

  lemma EnoughPolls(budget: nat, limit: nat, polls: nat)
    requires 1 <= limit && polls >= budget / limit + 1
    ensures polls * limit > budget
  {
    assert polls * limit >= (budget / limit + 1) * limit;
  }
}
