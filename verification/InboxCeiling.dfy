/**
 * The overshoot of the lock-free global ceiling is real: from a table one row
 * short of capacity, K free connections recording into K scopes with different
 * lock keys can all commit, ending at exactly capacity - 1 + K rows.
 */
module InboxCeiling {
  import opened Common
  import opened Inbox
  import opened InboxProtocol

  /** A new command whose scope has room. */
  ghost predicate FitsIn(cfg: Config, rows: Table, c: Command) {
    IsRecordable(c) && !HasKey(rows, KeyOf(c)) && |ScopeRows(rows, ScopeOf(c))| < cfg.scopeQuota
  }

  ghost predicate AllFitIn(cfg: Config, rows: Table, cmds: seq<Command>) {
    forall i :: 0 <= i < |cmds| ==> FitsIn(cfg, rows, cmds[i])
  }

  ghost predicate DistinctLocks(cfg: Config, cmds: seq<Command>) {
    forall i, j :: 0 <= i < j < |cmds| ==>
      cfg.lockKey(cmds[i].workspaceId + "|" + cmds[i].namespaceId)
      != cfg.lockKey(cmds[j].workspaceId + "|" + cmds[j].namespaceId)
  }

  /** K connections, each with a command for a scope of its own that has room. */
  ghost predicate CanOvershoot(cfg: Config, x: State, cmds: seq<Command>) {
    && WellFormed(x.rows, x.nextSeq)
    && |x.rows| == cfg.capacity - 1
    && |cmds| == |x.sessions|
    && (forall i :: 0 <= i < |x.sessions| ==> x.sessions[i].Idle? || x.sessions[i].Answered?)
    && AllFitIn(cfg, x.rows, cmds)
    && DistinctLocks(cfg, cmds)
  }

  /** The first `k` connections have inserted and not committed; the others have not begun. */
  function Prepared(x: State, cmds: seq<Command>, k: nat): State
    requires k <= |cmds| == |x.sessions|
  {
    State(x.rows, x.nextSeq + k,
          seq(|cmds|, i requires 0 <= i < |cmds| => if i < k then Inserted(cmds[i], x.nextSeq + i) else x.sessions[i]))
  }

  function RowsAfter(x: State, cmds: seq<Command>, k: nat): Table
    requires k <= |cmds|
  {
    if k == 0 then x.rows else RowsAfter(x, cmds, k - 1)[x.nextSeq + k - 1 := NewRow(cmds[k - 1])]
  }

  /** The first `k` of the prepared connections have committed. */
  function Committed(x: State, cmds: seq<Command>, k: nat): State
    requires k <= |cmds| == |x.sessions|
  {
    State(RowsAfter(x, cmds, k), x.nextSeq + |cmds|,
          seq(|cmds|, i requires 0 <= i < |cmds| =>
            if i < k then Answered(Ok(Recorded)) else Inserted(cmds[i], x.nextSeq + i)))
  }

  function Transaction(i: nat, cmd: Command): seq<Step> {
    [Begin(i, cmd), TakeLock(i), CountScope(i), CountAll(i), Insert(i)]
  }

  function Applied(cfg: Config, x: State, i: nat, cmd: Command): State {
    Apply(cfg, Apply(cfg, Apply(cfg, Apply(cfg, Apply(cfg, x,
      Begin(i, cmd)), TakeLock(i)), CountScope(i)), CountAll(i)), Insert(i))
  }

  lemma RunOfTransaction(cfg: Config, x: State, i: nat, cmd: Command)
    ensures Run(cfg, x, Transaction(i, cmd)) == Applied(cfg, x, i, cmd)
  {
    var t := Transaction(i, cmd);
    RunOfOne(cfg, x, [], t[0]);
    RunOfOne(cfg, x, t[..1], t[1]);
    RunOfOne(cfg, x, t[..2], t[2]);
    RunOfOne(cfg, x, t[..3], t[3]);
    RunOfOne(cfg, x, t[..4], t[4]);
    assert [] + [t[0]] == t[..1] && t[..1] + [t[1]] == t[..2] && t[..2] + [t[2]] == t[..3];
    assert t[..3] + [t[3]] == t[..4] && t[..4] + [t[4]] == t;
  }

  lemma LockNotHeldBy(cfg: Config, x: State, cmds: seq<Command>, k: nat, j: nat)
    requires CanOvershoot(cfg, x, cmds) && k < |cmds| && j < |cmds| && j != k
    ensures !HoldsKey(cfg, Prepared(x, cmds, k).sessions[j], cfg.lockKey(LockName(ScopeOf(cmds[k]))))
  {
  }

  lemma LockIsFreeForNext(cfg: Config, x: State, cmds: seq<Command>, k: nat)
    requires CanOvershoot(cfg, x, cmds) && k < |cmds|
    ensures var p := Prepared(x, cmds, k);
            LockFree(cfg, Put(p, k, LookedUp(cmds[k])), cfg.lockKey(LockName(ScopeOf(cmds[k]))))
  {
    forall j: nat | j < |cmds| && j != k
      ensures !HoldsKey(cfg, Prepared(x, cmds, k).sessions[j], cfg.lockKey(LockName(ScopeOf(cmds[k]))))
    {
      LockNotHeldBy(cfg, x, cmds, k, j);
    }
  }

  lemma BeginAdvances(cfg: Config, x: State, i: nat, c: Command)
    requires i < |x.sessions| && (x.sessions[i].Idle? || x.sessions[i].Answered?)
    requires IsRecordable(c) && !HasKey(x.rows, KeyOf(c))
    ensures Apply(cfg, x, Begin(i, c)) == Put(x, i, LookedUp(c))
  {
  }

  lemma LockAndCountsAdvance(cfg: Config, x: State, i: nat, c: Command)
    requires i < |x.sessions| && x.sessions[i] == LookedUp(c)
    requires LockFree(cfg, x, cfg.lockKey(LockName(ScopeOf(c))))
    requires |ScopeRows(x.rows, ScopeOf(c))| < cfg.scopeQuota && |x.rows| < cfg.capacity
    ensures Apply(cfg, Apply(cfg, Apply(cfg, x, TakeLock(i)), CountScope(i)), CountAll(i))
         == Put(x, i, GlobalCounted(c))
  {
    assert Apply(cfg, x, TakeLock(i)) == Put(x, i, Locked(c));
    assert Apply(cfg, Put(x, i, Locked(c)), CountScope(i)) == Put(x, i, ScopeCounted(c));
    assert Apply(cfg, Put(x, i, ScopeCounted(c)), CountAll(i)) == Put(x, i, GlobalCounted(c));
  }

  lemma InsertAdvances(cfg: Config, x: State, i: nat, c: Command)
    requires i < |x.sessions| && x.sessions[i] == GlobalCounted(c) && !HasKey(x.rows, KeyOf(c))
    ensures Apply(cfg, x, Insert(i)) == Put(x, i, Inserted(c, x.nextSeq)).(nextSeq := x.nextSeq + 1)
  {
  }

  lemma TransactionInserts(cfg: Config, p: State, i: nat, c: Command)
    requires i < |p.sessions| && (p.sessions[i].Idle? || p.sessions[i].Answered?)
    requires IsRecordable(c) && !HasKey(p.rows, KeyOf(c))
    requires LockFree(cfg, Put(p, i, LookedUp(c)), cfg.lockKey(LockName(ScopeOf(c))))
    requires |ScopeRows(p.rows, ScopeOf(c))| < cfg.scopeQuota && |p.rows| < cfg.capacity
    ensures Applied(cfg, p, i, c) == Put(p, i, Inserted(c, p.nextSeq)).(nextSeq := p.nextSeq + 1)
  {
    BeginAdvances(cfg, p, i, c);
    LockAndCountsAdvance(cfg, Put(p, i, LookedUp(c)), i, c);
    assert Put(Put(p, i, LookedUp(c)), i, GlobalCounted(c)) == Put(p, i, GlobalCounted(c));
    InsertAdvances(cfg, Put(p, i, GlobalCounted(c)), i, c);
    assert Put(Put(p, i, GlobalCounted(c)), i, Inserted(c, p.nextSeq)) == Put(p, i, Inserted(c, p.nextSeq));
  }

  lemma PreparedIsPut(x: State, cmds: seq<Command>, k: nat)
    requires k < |cmds| == |x.sessions|
    ensures var p := Prepared(x, cmds, k);
            Put(p, k, Inserted(cmds[k], p.nextSeq)).(nextSeq := p.nextSeq + 1) == Prepared(x, cmds, k + 1)
  {
    var p := Prepared(x, cmds, k);
    assert Prepared(x, cmds, k + 1).sessions == p.sessions[k := Inserted(cmds[k], p.nextSeq)];
  }

  ghost predicate CanPrepare(cfg: Config, x: State, cmds: seq<Command>, k: nat)
    requires k < |cmds| == |x.sessions|
  {
    exists steps :: Run(cfg, Prepared(x, cmds, k), steps) == Prepared(x, cmds, k + 1)
  }

  /** One more connection gets as far as its insert: every count still sees the old table. */
  lemma OneMorePrepared(cfg: Config, x: State, cmds: seq<Command>, k: nat)
    requires CanOvershoot(cfg, x, cmds) && k < |cmds|
    ensures CanPrepare(cfg, x, cmds, k)
  {
    RunOfTransaction(cfg, Prepared(x, cmds, k), k, cmds[k]);
    LockIsFreeForNext(cfg, x, cmds, k);
    TransactionInserts(cfg, Prepared(x, cmds, k), k, cmds[k]);
    PreparedIsPut(x, cmds, k);
  }

  lemma OneMoreCommitted(cfg: Config, x: State, cmds: seq<Command>, k: nat) returns (steps: seq<Step>)
    requires k < |cmds| == |x.sessions|
    ensures Run(cfg, Committed(x, cmds, k), steps) == Committed(x, cmds, k + 1)
  {
    steps := [] + [Commit(k)];
    RunOfOne(cfg, Committed(x, cmds, k), [], Commit(k));
    var p := Committed(x, cmds, k);
    assert Committed(x, cmds, k + 1).sessions == p.sessions[k := Answered(Ok(Recorded))];
  }

  lemma Chain(cfg: Config, x: State, y: State, z: State, a: seq<Step>, b: seq<Step>) returns (steps: seq<Step>)
    requires Run(cfg, x, a) == y && Run(cfg, y, b) == z
    ensures Run(cfg, x, steps) == z
  {
    RunOfConcat(cfg, x, a, b);
    steps := a + b;
  }

  lemma NothingPrepared(cfg: Config, x: State, cmds: seq<Command>) returns (steps: seq<Step>)
    requires |cmds| == |x.sessions|
    ensures Run(cfg, x, steps) == Prepared(x, cmds, 0)
  {
    steps := [];
    assert Prepared(x, cmds, 0).sessions == x.sessions;
  }

  lemma {:induction false} AllPrepare(cfg: Config, x: State, cmds: seq<Command>, k: nat) returns (steps: seq<Step>)
    requires k <= |cmds| == |x.sessions|
    requires forall i: nat :: i < |cmds| ==> CanPrepare(cfg, x, cmds, i)
    ensures Run(cfg, x, steps) == Prepared(x, cmds, k)
  {
    if k == 0 {
      steps := NothingPrepared(cfg, x, cmds);
    } else {
      var init := AllPrepare(cfg, x, cmds, k - 1);
      assert CanPrepare(cfg, x, cmds, k - 1);
      var last :| Run(cfg, Prepared(x, cmds, k - 1), last) == Prepared(x, cmds, k);
      steps := Chain(cfg, x, Prepared(x, cmds, k - 1), Prepared(x, cmds, k), init, last);
    }
  }

  lemma NothingCommitted(cfg: Config, x: State, cmds: seq<Command>) returns (steps: seq<Step>)
    requires |cmds| == |x.sessions|
    ensures Run(cfg, Prepared(x, cmds, |cmds|), steps) == Committed(x, cmds, 0)
  {
    steps := [];
    assert Prepared(x, cmds, |cmds|).sessions == Committed(x, cmds, 0).sessions;
  }

  lemma {:induction false} AllCommit(cfg: Config, x: State, cmds: seq<Command>, k: nat) returns (steps: seq<Step>)
    requires k <= |cmds| == |x.sessions|
    ensures Run(cfg, Prepared(x, cmds, |cmds|), steps) == Committed(x, cmds, k)
  {
    if k == 0 {
      steps := NothingCommitted(cfg, x, cmds);
    } else {
      var init := AllCommit(cfg, x, cmds, k - 1);
      var last := OneMoreCommitted(cfg, x, cmds, k - 1);
      steps := Chain(cfg, Prepared(x, cmds, |cmds|), Committed(x, cmds, k - 1), Committed(x, cmds, k), init, last);
    }
  }

  lemma OneRowMore(rows: Table, s: nat, r: Row)
    requires s !in rows
    ensures |rows[s := r]| == |rows| + 1
  {
    assert rows[s := r].Keys == rows.Keys + {s};
  }

  lemma {:induction false} RowsAfterGrow(x: State, cmds: seq<Command>, k: nat)
    requires k <= |cmds| && WellFormed(x.rows, x.nextSeq)
    ensures |RowsAfter(x, cmds, k)| == |x.rows| + k
    ensures forall s :: s in RowsAfter(x, cmds, k) ==> s < x.nextSeq + k
  {
    if k > 0 {
      RowsAfterGrow(x, cmds, k - 1);
      OneRowMore(RowsAfter(x, cmds, k - 1), x.nextSeq + k - 1, NewRow(cmds[k - 1]));
    }
  }

  /** From such a state the bound of capacity - 1 + K is reached. */
  lemma OvershootFrom(cfg: Config, x: State, cmds: seq<Command>) returns (steps: seq<Step>)
    requires CanOvershoot(cfg, x, cmds)
    ensures |Run(cfg, x, steps).rows| == cfg.capacity - 1 + |x.sessions|
  {
    forall i: nat | i < |cmds| ensures CanPrepare(cfg, x, cmds, i) {
      OneMorePrepared(cfg, x, cmds, i);
    }
    var first := AllPrepare(cfg, x, cmds, |cmds|);
    var second := AllCommit(cfg, x, cmds, |cmds|);
    steps := first + second;
    RunOfConcat(cfg, x, first, second);
    RowsAfterGrow(x, cmds, |cmds|);
  }
}
