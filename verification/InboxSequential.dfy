/** A `record` whose statements nothing interleaves with does what the one-piece form says. */
module InboxSequential {
  import opened Common
  import opened Inbox
  import opened InboxProtocol
  import opened InboxCeiling

  /** The state after one undisturbed `record` on connection `i`. */
  function AfterRecord(cfg: Config, x: State, i: nat, c: Command): State
    requires i < |x.sessions|
  {
    var answer := RecordAnswer(x.rows, c, cfg.scopeQuota, cfg.capacity);
    if answer == Ok(Recorded)
    then Put(x, i, Answered(answer)).(rows := x.rows[x.nextSeq := NewRow(c)], nextSeq := x.nextSeq + 1)
    else Put(x, i, Answered(answer))
  }

  lemma AnsweredStays(cfg: Config, x: State, i: nat)
    requires i < |x.sessions| && x.sessions[i].Answered?
    ensures Apply(cfg, x, TakeLock(i)) == Apply(cfg, x, CountScope(i)) == Apply(cfg, x, CountAll(i)) == x
    ensures Apply(cfg, x, Insert(i)) == Apply(cfg, x, Commit(i)) == x
  {
  }

  lemma LookupLeavesLocksAlone(cfg: Config, x: State, i: nat, c: Command, key: int)
    requires i < |x.sessions| && LockFree(cfg, x, key)
    ensures LockFree(cfg, Put(x, i, LookedUp(c)), key)
  {
  }

  lemma RefusedByACount(cfg: Config, x: State, i: nat, c: Command)
    requires i < |x.sessions| && x.sessions[i] == LookedUp(c)
    requires LockFree(cfg, x, cfg.lockKey(LockName(ScopeOf(c))))
    requires |ScopeRows(x.rows, ScopeOf(c))| >= cfg.scopeQuota || |x.rows| >= cfg.capacity
    ensures Apply(cfg, Apply(cfg, Apply(cfg, x, TakeLock(i)), CountScope(i)), CountAll(i))
         == Put(x, i, Answered(Err(Capacity)))
  {
    var refused := Put(x, i, Answered(Err(Capacity)));
    assert Apply(cfg, x, TakeLock(i)) == Put(x, i, Locked(c));
    if |ScopeRows(x.rows, ScopeOf(c))| >= cfg.scopeQuota {
      assert Apply(cfg, Put(x, i, Locked(c)), CountScope(i)) == refused;
      AnsweredStays(cfg, refused, i);
    } else {
      assert Apply(cfg, Put(x, i, Locked(c)), CountScope(i)) == Put(x, i, ScopeCounted(c));
      assert Apply(cfg, Put(x, i, ScopeCounted(c)), CountAll(i)) == refused;
    }
  }

  lemma RefusedRecord(cfg: Config, x: State, i: nat, c: Command)
    requires i < |x.sessions| && (x.sessions[i].Idle? || x.sessions[i].Answered?)
    requires IsRecordable(c) && !HasKey(x.rows, KeyOf(c))
    requires LockFree(cfg, Put(x, i, LookedUp(c)), cfg.lockKey(LockName(ScopeOf(c))))
    requires |ScopeRows(x.rows, ScopeOf(c))| >= cfg.scopeQuota || |x.rows| >= cfg.capacity
    ensures Apply(cfg, Applied(cfg, x, i, c), Commit(i)) == Put(x, i, Answered(Err(Capacity)))
  {
    var begun, refused := Put(x, i, LookedUp(c)), Put(x, i, Answered(Err(Capacity)));
    BeginAdvances(cfg, x, i, c);
    RefusedByACount(cfg, begun, i, c);
    assert Put(begun, i, Answered(Err(Capacity))) == refused;
    AnsweredStays(cfg, refused, i);
  }

  lemma AnsweredRecord(cfg: Config, x: State, i: nat, c: Command)
    requires i < |x.sessions| && (x.sessions[i].Idle? || x.sessions[i].Answered?)
    requires !IsRecordable(c) || HasKey(x.rows, KeyOf(c))
    ensures Apply(cfg, Applied(cfg, x, i, c), Commit(i))
         == Put(x, i, Answered(if IsRecordable(c) then ExistingAnswer(x.rows, c) else Err(InvalidCommand)))
  {
    AnsweredStays(cfg, Apply(cfg, x, Begin(i, c)), i);
  }

  lemma AcceptedRecord(cfg: Config, x: State, i: nat, c: Command)
    requires i < |x.sessions| && (x.sessions[i].Idle? || x.sessions[i].Answered?)
    requires IsRecordable(c) && !HasKey(x.rows, KeyOf(c))
    requires LockFree(cfg, Put(x, i, LookedUp(c)), cfg.lockKey(LockName(ScopeOf(c))))
    requires |ScopeRows(x.rows, ScopeOf(c))| < cfg.scopeQuota && |x.rows| < cfg.capacity
    ensures Apply(cfg, Applied(cfg, x, i, c), Commit(i)) ==
            Put(x, i, Answered(Ok(Recorded))).(rows := x.rows[x.nextSeq := NewRow(c)], nextSeq := x.nextSeq + 1)
  {
    TransactionInserts(cfg, x, i, c);
    CommitAdvances(cfg, x, i, c);
  }

  /**
   * Whatever the table holds, running the statements of one `record` back to
   * back while nobody holds its lock gives the one-piece answer and rows.
   */
  lemma UndisturbedRecord(cfg: Config, x: State, i: nat, c: Command)
    requires i < |x.sessions| && (x.sessions[i].Idle? || x.sessions[i].Answered?)
    requires LockFree(cfg, x, cfg.lockKey(LockName(ScopeOf(c))))
    ensures Run(cfg, x, Transaction(i, c) + [Commit(i)]) == AfterRecord(cfg, x, i, c)
  {
    RunOfTransaction(cfg, x, i, c);
    RunOfOne(cfg, x, Transaction(i, c), Commit(i));
    LookupLeavesLocksAlone(cfg, x, i, c, cfg.lockKey(LockName(ScopeOf(c))));
    if !IsRecordable(c) || HasKey(x.rows, KeyOf(c)) {
      AnsweredRecord(cfg, x, i, c);
    } else if |ScopeRows(x.rows, ScopeOf(c))| >= cfg.scopeQuota || |x.rows| >= cfg.capacity {
      RefusedRecord(cfg, x, i, c);
    } else {
      AcceptedRecord(cfg, x, i, c);
    }
  }

  /** The same when the command is new and there is room. */
  lemma UndisturbedSuccess(cfg: Config, x: State, i: nat, c: Command)
    requires i < |x.sessions| && (x.sessions[i].Idle? || x.sessions[i].Answered?)
    requires LockFree(cfg, x, cfg.lockKey(LockName(ScopeOf(c))))
    requires IsRecordable(c) && !HasKey(x.rows, KeyOf(c))
    requires |ScopeRows(x.rows, ScopeOf(c))| < cfg.scopeQuota && |x.rows| < cfg.capacity
    ensures Run(cfg, x, Transaction(i, c) + [Commit(i)]) ==
            State(x.rows[x.nextSeq := NewRow(c)], x.nextSeq + 1, x.sessions[i := Answered(Ok(Recorded))])
  {
    UndisturbedRecord(cfg, x, i, c);
  }

  lemma CommitAdvances(cfg: Config, x: State, i: nat, c: Command)
    requires i < |x.sessions|
    ensures var inserted := Put(x, i, Inserted(c, x.nextSeq)).(nextSeq := x.nextSeq + 1);
            Apply(cfg, inserted, Commit(i)) ==
            Put(x, i, Answered(Ok(Recorded))).(rows := x.rows[x.nextSeq := NewRow(c)], nextSeq := x.nextSeq + 1)
  {
  }
}
