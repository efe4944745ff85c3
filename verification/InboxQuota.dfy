/**
 * The two ceilings of the inbox, over every interleaving: the per-scope quota
 * is exact, and the lock-free global ceiling is overshot by fewer rows than
 * there are connections.
 */
module InboxQuota {
  import opened Common
  import opened Inbox
  import opened InboxProtocol

  ghost predicate Good(cfg: Config, x: State) {
    && WellFormed(x.rows, x.nextSeq)
    && LockExclusive(cfg, x)
    && RoomKept(cfg, x)
    && InsertsFresh(x)
    && InsertsDistinct(x)
    && WithinQuota(cfg, x.rows)
  }

  lemma FewerRowsPerScope(before: Table, after: Table, scope: Scope)
    requires SameCommands(before, after)
    ensures |ScopeRows(after, scope)| <= |ScopeRows(before, scope)|
  {
    SubsetIsSmaller(ScopeRows(after, scope), ScopeRows(before, scope));
  }

  lemma CommitAddsOneToItsScope(rows: Table, s: nat, cmd: Command, scope: Scope)
    requires s !in rows
    ensures |ScopeRows(rows[s := NewRow(cmd)], scope)|
         == |ScopeRows(rows, scope)| + (if ScopeOf(cmd) == scope then 1 else 0)
  {
    var after := ScopeRows(rows[s := NewRow(cmd)], scope);
    if ScopeOf(cmd) == scope {
      assert after == ScopeRows(rows, scope) + {s};
    } else {
      assert after == ScopeRows(rows, scope);
    }
  }

  lemma TableStepKeepsGood(cfg: Config, x: State, st: Step)
    requires Good(cfg, x)
    requires IsTableStep(st)
    ensures Good(cfg, Apply(cfg, x, st))
  {
    var y := Apply(cfg, x, st);
    TableStepsKeepCommands(cfg, x, st);
    SameCommandsKeepsWellFormed(x.rows, y.rows, x.nextSeq);
    forall scope ensures |ScopeRows(y.rows, scope)| <= |ScopeRows(x.rows, scope)| {
      FewerRowsPerScope(x.rows, y.rows, scope);
    }
    forall key | HasKey(y.rows, key) ensures HasKey(x.rows, key) {
      var s :| s in y.rows && KeyOf(y.rows[s].command) == key;
      assert s in x.rows && KeyOf(x.rows[s].command) == key;
    }
  }

  lemma CommitKeepsWellFormed(x: State, s: nat, cmd: Command)
    requires WellFormed(x.rows, x.nextSeq)
    requires 1 <= s < x.nextSeq && s !in x.rows && !HasKey(x.rows, KeyOf(cmd))
    ensures WellFormed(x.rows[s := NewRow(cmd)], x.nextSeq)
  {
  }

  /** While one session commits, no other session holding a lock works on its scope. */
  lemma OthersAreElsewhere(cfg: Config, x: State, i: nat, j: nat)
    requires LockExclusive(cfg, x)
    requires i < |x.sessions| && j < |x.sessions| && i != j
    requires HoldsLock(x.sessions[i]) && HoldsLock(x.sessions[j])
    ensures ScopeOf(x.sessions[i].cmd) != ScopeOf(x.sessions[j].cmd)
    ensures KeyOf(x.sessions[i].cmd) != KeyOf(x.sessions[j].cmd)
  {
    if i < j { } else { assert j < i; }
  }

  lemma CommitKeepsOthersFresh(cfg: Config, x: State, i: nat, j: nat)
    requires LockExclusive(cfg, x) && InsertsFresh(x) && InsertsDistinct(x)
    requires i < |x.sessions| && j < |x.sessions| && i != j
    requires x.sessions[i].Inserted? && x.sessions[j].Inserted?
    ensures var rows := x.rows[x.sessions[i].sequence := NewRow(x.sessions[i].cmd)];
            x.sessions[j].sequence !in rows && !HasKey(rows, KeyOf(x.sessions[j].cmd))
  {
    OthersAreElsewhere(cfg, x, i, j);
    assert x.sessions[i].sequence != x.sessions[j].sequence by {
      if i < j { } else { assert j < i; }
    }
  }

  lemma CommitKeepsGood(cfg: Config, x: State, y: State, i: nat)
    requires Good(cfg, x)
    requires i < |x.sessions| && Commits(x, y, i)
    ensures Good(cfg, y)
  {
    var me := x.sessions[i];
    CommitKeepsWellFormed(x, me.sequence, me.cmd);
    MoveKeepsLockExclusive(cfg, x, y, i);
    assert PastScopeCount(me);
    forall scope ensures |ScopeRows(y.rows, scope)| <= cfg.scopeQuota {
      CommitAddsOneToItsScope(x.rows, me.sequence, me.cmd, scope);
    }
    forall j | 0 <= j < |y.sessions| && PastScopeCount(y.sessions[j])
      ensures |ScopeRows(y.rows, ScopeOf(y.sessions[j].cmd))| < cfg.scopeQuota
    {
      assert j != i && y.sessions[j] == x.sessions[j];
      OthersAreElsewhere(cfg, x, i, j);
      CommitAddsOneToItsScope(x.rows, me.sequence, me.cmd, ScopeOf(y.sessions[j].cmd));
    }
    forall j | 0 <= j < |y.sessions| && y.sessions[j].Inserted?
      ensures y.sessions[j].sequence !in y.rows && !HasKey(y.rows, KeyOf(y.sessions[j].cmd))
    {
      assert j != i && y.sessions[j] == x.sessions[j];
      CommitKeepsOthersFresh(cfg, x, i, j);
    }
  }

  /** Every other move leaves the committed rows alone. */
  lemma QuietMoveKeepsGood(cfg: Config, x: State, y: State, i: nat)
    requires Good(cfg, x)
    requires i < |x.sessions| && Moves(cfg, x, y, i) && y.rows == x.rows
    ensures Good(cfg, y)
  {
    MoveKeepsLockExclusive(cfg, x, y, i);
  }

  lemma MoveKeepsGood(cfg: Config, x: State, y: State, i: nat)
    requires Good(cfg, x)
    requires i < |x.sessions| && Moves(cfg, x, y, i)
    ensures Good(cfg, y)
  {
    if y.rows == x.rows {
      QuietMoveKeepsGood(cfg, x, y, i);
    } else {
      CommitKeepsGood(cfg, x, y, i);
    }
  }

  lemma StepKeepsGood(cfg: Config, x: State, st: Step)
    requires Good(cfg, x)
    ensures Good(cfg, Apply(cfg, x, st))
  {
    if IsTableStep(st) {
      TableStepKeepsGood(cfg, x, st);
    } else {
      RecordStepMoves(cfg, x, st);
      if st.session < |x.sessions| {
        MoveKeepsGood(cfg, x, Apply(cfg, x, st), st.session);
      }
    }
  }

  lemma InitIsGood(cfg: Config, sessions: nat)
    ensures Good(cfg, Init(sessions))
  {
    var x := Init(sessions);
    forall scope ensures |ScopeRows(x.rows, scope)| <= cfg.scopeQuota {
      assert ScopeRows(x.rows, scope) == {};
    }
  }

  lemma {:induction false} EveryRunIsGood(cfg: Config, x: State, steps: seq<Step>)
    requires Good(cfg, x)
    ensures Good(cfg, Run(cfg, x, steps))
    decreases |steps|
  {
    if steps != [] {
      EveryRunIsGood(cfg, x, steps[..|steps| - 1]);
      StepKeepsGood(cfg, Run(cfg, x, steps[..|steps| - 1]), steps[|steps| - 1]);
    }
  }

  /** No interleaving ever puts a scope over its quota, whatever the lock hash collides on. */
  lemma {:induction false} ScopeQuotaHolds(
    cfg: Config, sessions: nat, steps: seq<Step>, workspaceId: string, namespaceId: string)
    ensures ScopeSize(Run(cfg, Init(sessions), steps).rows, workspaceId, namespaceId) <= cfg.scopeQuota
  {
    InitIsGood(cfg, sessions);
    EveryRunIsGood(cfg, Init(sessions), steps);
    ScopeSizeCounts(Run(cfg, Init(sessions), steps).rows, workspaceId, namespaceId);
  }

  // ----------------------------------------------------------- global ceiling

  /** How many sessions have passed the global count and may still commit a row. */
  function InFlight(sessions: seq<Session>): (n: nat)
    ensures n <= |sessions|
  {
    if sessions == [] then 0
    else InFlight(sessions[1..]) + (if PastGlobalCount(sessions[0]) then 1 else 0)
  }

  lemma {:induction false} InFlightAfterPut(sessions: seq<Session>, i: nat, s: Session)
    requires i < |sessions|
    ensures InFlight(sessions[i := s])
         == InFlight(sessions) - (if PastGlobalCount(sessions[i]) then 1 else 0)
                               + (if PastGlobalCount(s) then 1 else 0)
  {
    if i == 0 {
      assert sessions[0 := s][1..] == sessions[1..];
    } else {
      assert sessions[i := s][1..] == sessions[1..][i - 1 := s];
      InFlightAfterPut(sessions[1..], i - 1, s);
    }
  }

  ghost predicate CeilingKept(cfg: Config, x: State) {
    |x.rows| + InFlight(x.sessions) <= cfg.capacity - 1 + |x.sessions|
  }

  lemma TableStepKeepsCeiling(cfg: Config, x: State, st: Step)
    requires CeilingKept(cfg, x)
    requires IsTableStep(st)
    ensures CeilingKept(cfg, Apply(cfg, x, st))
  {
    TableStepsKeepCommands(cfg, x, st);
    SubsetIsSmaller(Apply(cfg, x, st).rows.Keys, x.rows.Keys);
  }

  lemma MoveKeepsCeiling(cfg: Config, x: State, y: State, i: nat)
    requires CeilingKept(cfg, x) && InsertsFresh(x)
    requires i < |x.sessions| && Moves(cfg, x, y, i)
    ensures CeilingKept(cfg, y)
  {
    InFlightAfterPut(x.sessions, i, y.sessions[i]);
    if y.rows != x.rows {
      assert |y.rows| == |x.rows| + 1;
    }
  }

  lemma {:induction false} EveryRunKeepsCeiling(cfg: Config, x: State, steps: seq<Step>)
    requires Good(cfg, x) && CeilingKept(cfg, x)
    ensures CeilingKept(cfg, Run(cfg, x, steps))
    decreases |steps|
  {
    if steps != [] {
      var before, st := Run(cfg, x, steps[..|steps| - 1]), steps[|steps| - 1];
      EveryRunKeepsCeiling(cfg, x, steps[..|steps| - 1]);
      EveryRunIsGood(cfg, x, steps[..|steps| - 1]);
      if IsTableStep(st) {
        TableStepKeepsCeiling(cfg, before, st);
      } else {
        RecordStepMoves(cfg, before, st);
        if st.session < |before.sessions| {
          MoveKeepsCeiling(cfg, before, Apply(cfg, before, st), st.session);
        }
      }
    }
  }

  lemma {:induction false} NobodyInFlightAtFirst(sessions: seq<Session>)
    requires forall i :: 0 <= i < |sessions| ==> sessions[i].Idle?
    ensures InFlight(sessions) == 0
  {
    if sessions != [] {
      NobodyInFlightAtFirst(sessions[1..]);
    }
  }

  lemma {:induction false} RunKeepsSessionCount(cfg: Config, x: State, steps: seq<Step>)
    ensures |Run(cfg, x, steps).sessions| == |x.sessions|
    decreases |steps|
  {
    if steps != [] {
      var before, st := Run(cfg, x, steps[..|steps| - 1]), steps[|steps| - 1];
      RunKeepsSessionCount(cfg, x, steps[..|steps| - 1]);
      if !IsTableStep(st) {
        RecordStepMoves(cfg, before, st);
      }
    }
  }

  /** With K connections the committed row count never exceeds capacity - 1 + K. */
  lemma {:induction false} GlobalCeilingBound(cfg: Config, sessions: nat, steps: seq<Step>)
    requires ValidConfig(cfg)
    ensures |Run(cfg, Init(sessions), steps).rows| <= cfg.capacity - 1 + sessions
  {
    var x := Init(sessions);
    InitIsGood(cfg, sessions);
    NobodyInFlightAtFirst(x.sessions);
    EveryRunKeepsCeiling(cfg, x, steps);
    RunKeepsSessionCount(cfg, x, steps);
  }
}
