/**
 * Every interleaving of inbox transactions over independent connections.
 *
 * A `record` call is one database transaction of several READ COMMITTED
 * statements, so it is a session that moves through phases; steps of other
 * sessions, and whole `claim`, `acknowledge`, `cancel` and `maintain`
 * transactions, may fall between any two of its statements. A run is any
 * sequence of steps. A step that is not enabled (a session waiting for the
 * advisory lock, say) leaves the state as it is.
 */
module InboxProtocol {
  import opened Common
  import opened Inbox

  /** `lockKey` is the 32-bit hash that picks the advisory lock: any function at all. */
  datatype Config = Config(
    capacity: nat,
    scopeQuota: nat,
    lockKey: string -> int,
    maxAttempts: nat,
    redeliveryAfter: nat)

  predicate ValidConfig(cfg: Config) {
    0 < cfg.scopeQuota <= cfg.capacity <= MAX_INBOX_CAPACITY
  }

  /** Where one connection stands inside `record`. */
  datatype Session =
    | Idle
    | LookedUp(cmd: Command)
    | Locked(cmd: Command)
    | ScopeCounted(cmd: Command)
    | GlobalCounted(cmd: Command)
    | Inserted(cmd: Command, sequence: nat)
    | Conflicted(cmd: Command)
    | Answered(result: Result<RecordResult, InboxError>)

  /** `rows` holds committed rows only. */
  datatype State = State(rows: Table, nextSeq: nat, sessions: seq<Session>)

  datatype Step =
    | Begin(session: nat, cmd: Command)
    | TakeLock(session: nat)
    | CountScope(session: nat)
    | CountAll(session: nat)
    | Insert(session: nat)
    | ReadStored(session: nat)
    | Commit(session: nat)
    | Abort(session: nat)
    | Claim(agentId: string, scopes: Scope -> bool, limit: nat, now: nat, locked: set<nat>)
    | Acknowledge(key: Key, agentId: string, attempt: nat, now: nat)
    | Cancel(key: Key, now: nat)
    | Maintain(now: nat, retention: nat)

  /** A whole transaction in one step, as opposed to one statement of a `record`. */
  predicate IsTableStep(st: Step) {
    st.Claim? || st.Acknowledge? || st.Cancel? || st.Maintain?
  }

  function LockName(scope: Scope): string {
    scope.workspaceId + "|" + scope.namespaceId
  }

  /** An advisory transaction lock lasts exactly as long as the transaction that took it. */
  predicate HoldsLock(s: Session) {
    s.Locked? || s.ScopeCounted? || s.GlobalCounted? || s.Inserted? || s.Conflicted?
  }

  predicate HoldsKey(cfg: Config, s: Session, key: int) {
    HoldsLock(s) && cfg.lockKey(LockName(ScopeOf(s.cmd))) == key
  }

  predicate LockFree(cfg: Config, x: State, key: int) {
    forall j :: 0 <= j < |x.sessions| ==> !HoldsKey(cfg, x.sessions[j], key)
  }

  function Put(x: State, i: nat, s: Session): State
    requires i < |x.sessions|
  {
    x.(sessions := x.sessions[i := s])
  }

  function Init(sessions: nat): State {
    State(map[], 1, seq(sessions, _ => Idle))
  }

  function PollOf(cfg: Config, agentId: string, now: nat): Poll {
    Poll(agentId, cfg.maxAttempts, cfg.redeliveryAfter, now)
  }

  /** The sequences a claim step delivers. */
  function Claimed(cfg: Config, x: State, st: Step): (ids: seq<nat>)
    requires st.Claim?
  {
    ClaimIds(x.rows, x.nextSeq, PollOf(cfg, st.agentId, st.now), st.locked, st.scopes, st.limit)
  }

  /** The statements of `record`, one step each, for the session that takes it. */
  function ApplyRecord(cfg: Config, x: State, st: Step): State
    requires !IsTableStep(st)
  {
    if st.session >= |x.sessions| then x
    else
      var i := st.session;
      var me := x.sessions[i];
      match st
      case Begin(_, cmd) =>
        if !(me.Idle? || me.Answered?) then x
        else if !IsRecordable(cmd) then Put(x, i, Answered(Err(InvalidCommand)))
        else if HasKey(x.rows, KeyOf(cmd)) then Put(x, i, Answered(ExistingAnswer(x.rows, cmd)))
        else Put(x, i, LookedUp(cmd))
      case TakeLock(_) =>
        if !me.LookedUp? || !LockFree(cfg, x, cfg.lockKey(LockName(ScopeOf(me.cmd)))) then x
        else Put(x, i, Locked(me.cmd))
      case CountScope(_) =>
        if !me.Locked? then x
        else if |ScopeRows(x.rows, ScopeOf(me.cmd))| >= cfg.scopeQuota then Put(x, i, Answered(Err(Capacity)))
        else Put(x, i, ScopeCounted(me.cmd))
      case CountAll(_) =>
        if !me.ScopeCounted? then x
        else if |x.rows| >= cfg.capacity then Put(x, i, Answered(Err(Capacity)))
        else Put(x, i, GlobalCounted(me.cmd))
      case Insert(_) =>
        // The sequence default is drawn even when the conflict clause then inserts nothing.
        if !me.GlobalCounted? then x
        else if HasKey(x.rows, KeyOf(me.cmd)) then Put(x, i, Conflicted(me.cmd)).(nextSeq := x.nextSeq + 1)
        else Put(x, i, Inserted(me.cmd, x.nextSeq)).(nextSeq := x.nextSeq + 1)
      case ReadStored(_) =>
        if !me.Conflicted? then x
        else if HasKey(x.rows, KeyOf(me.cmd)) then Put(x, i, Answered(ExistingAnswer(x.rows, me.cmd)))
        else Put(x, i, Answered(Err(Internal)))
      case Commit(_) =>
        if !me.Inserted? then x
        else Put(x, i, Answered(Ok(Recorded))).(rows := x.rows[me.sequence := NewRow(me.cmd)])
      case Abort(_) =>
        if me.Idle? || me.Answered? then x else Put(x, i, Answered(Err(Internal)))
  }

  /** The other transactions, each atomic against the committed rows. */
  function ApplyTable(cfg: Config, x: State, st: Step): Table
    requires IsTableStep(st)
  {
    match st
    case Claim(agentId, scopes, limit, now, locked) =>
      ClaimTable(x.rows, x.nextSeq, PollOf(cfg, agentId, now), locked, scopes, limit)
    case Acknowledge(key, agentId, attempt, now) => AckTable(x.rows, key, agentId, attempt, now)
    case Cancel(key, now) => CancelTable(x.rows, key, now)
    case Maintain(now, retention) => MaintainTable(x.rows, now, retention, cfg.maxAttempts)
  }

  function Apply(cfg: Config, x: State, st: Step): State {
    if IsTableStep(st) then x.(rows := ApplyTable(cfg, x, st)) else ApplyRecord(cfg, x, st)
  }

  function Run(cfg: Config, x: State, steps: seq<Step>): State
    decreases |steps|
  {
    if steps == [] then x else Apply(cfg, Run(cfg, x, steps[..|steps| - 1]), steps[|steps| - 1])
  }

  lemma {:induction false} RunOfConcat(cfg: Config, x: State, a: seq<Step>, b: seq<Step>)
    ensures Run(cfg, x, a + b) == Run(cfg, Run(cfg, x, a), b)
    decreases |b|
  {
    if b == [] {
      assert a + b == a;
    } else {
      var init := b[..|b| - 1];
      assert (a + b)[..|a + b| - 1] == a + init;
      RunOfConcat(cfg, x, a, init);
    }
  }

  lemma RunOfOne(cfg: Config, x: State, steps: seq<Step>, st: Step)
    ensures Run(cfg, x, steps + [st]) == Apply(cfg, Run(cfg, x, steps), st)
  {
    assert (steps + [st])[..|steps|] == steps;
  }

  /** The table transactions keep the commands of every surviving row. */
  lemma TableStepsKeepCommands(cfg: Config, x: State, st: Step)
    requires IsTableStep(st)
    ensures SameCommands(x.rows, ApplyTable(cfg, x, st))
  {
  }

  // ---------------------------------------------------------------- locking

  /** Past its scope count and not yet answered. */
  predicate PastScopeCount(s: Session) {
    s.ScopeCounted? || s.GlobalCounted? || s.Inserted? || s.Conflicted?
  }

  /** Two sessions never hold the advisory lock of one key. */
  ghost predicate LockExclusive(cfg: Config, x: State) {
    forall i, j :: 0 <= i < j < |x.sessions| && HoldsLock(x.sessions[i]) && HoldsLock(x.sessions[j]) ==>
      cfg.lockKey(LockName(ScopeOf(x.sessions[i].cmd))) != cfg.lockKey(LockName(ScopeOf(x.sessions[j].cmd)))
  }

  /** A session past its scope count still has room to insert. */
  ghost predicate RoomKept(cfg: Config, x: State) {
    forall i :: 0 <= i < |x.sessions| && PastScopeCount(x.sessions[i]) ==>
      |ScopeRows(x.rows, ScopeOf(x.sessions[i].cmd))| < cfg.scopeQuota
  }

  /** An uncommitted row has a sequence and a key of its own. */
  ghost predicate InsertsFresh(x: State) {
    forall i :: 0 <= i < |x.sessions| && x.sessions[i].Inserted? ==>
      && 1 <= x.sessions[i].sequence < x.nextSeq
      && x.sessions[i].sequence !in x.rows
      && !HasKey(x.rows, KeyOf(x.sessions[i].cmd))
  }

  ghost predicate InsertsDistinct(x: State) {
    forall i, j :: 0 <= i < j < |x.sessions| && x.sessions[i].Inserted? && x.sessions[j].Inserted? ==>
      x.sessions[i].sequence != x.sessions[j].sequence
  }

  ghost predicate WithinQuota(cfg: Config, rows: Table) {
    forall scope :: |ScopeRows(rows, scope)| <= cfg.scopeQuota
  }

  /** The moves of one session, without the statements that decide between them. */
  ghost predicate Moves(cfg: Config, x: State, y: State, i: nat)
    requires i < |x.sessions|
  {
    && |y.sessions| == |x.sessions|
    && y.sessions == x.sessions[i := y.sessions[i]]
    && var a, b := x.sessions[i], y.sessions[i];
       || y == x
       || (y.rows == x.rows && y.nextSeq == x.nextSeq && (b.LookedUp? || b.Answered?) && !PastGlobalCount(b))
       || (y.rows == x.rows && y.nextSeq == x.nextSeq && a.LookedUp? && b == Locked(a.cmd)
           && LockFree(cfg, x, cfg.lockKey(LockName(ScopeOf(a.cmd)))))
       || (y.rows == x.rows && y.nextSeq == x.nextSeq && a.Locked? && b == ScopeCounted(a.cmd)
           && |ScopeRows(x.rows, ScopeOf(a.cmd))| < cfg.scopeQuota)
       || (y.rows == x.rows && y.nextSeq == x.nextSeq && a.ScopeCounted? && b == GlobalCounted(a.cmd)
           && |x.rows| < cfg.capacity)
       || (y.rows == x.rows && y.nextSeq == x.nextSeq + 1 && a.GlobalCounted? && b == Conflicted(a.cmd))
       || (y.rows == x.rows && y.nextSeq == x.nextSeq + 1 && a.GlobalCounted? && b == Inserted(a.cmd, x.nextSeq)
           && !HasKey(x.rows, KeyOf(a.cmd)))
       || Commits(x, y, i)
  }

  ghost predicate Commits(x: State, y: State, i: nat)
    requires i < |x.sessions|
  {
    && x.sessions[i].Inserted?
    && y == State(x.rows[x.sessions[i].sequence := NewRow(x.sessions[i].cmd)], x.nextSeq,
                  x.sessions[i := Answered(Ok(Recorded))])
  }

  /** Passed the global count and may still commit a row. */
  predicate PastGlobalCount(s: Session) {
    s.GlobalCounted? || s.Inserted?
  }

  /** Every step of `record` is one of those moves; a step for an unknown session is none. */
  lemma RecordStepMoves(cfg: Config, x: State, st: Step)
    requires !IsTableStep(st)
    ensures st.session >= |x.sessions| ==> Apply(cfg, x, st) == x
    ensures st.session < |x.sessions| ==> Moves(cfg, x, Apply(cfg, x, st), st.session)
  {
    if st.session < |x.sessions| {
      var y := Apply(cfg, x, st);
      assert y.sessions == x.sessions[st.session := y.sessions[st.session]];
    }
  }

  lemma MoveKeepsLockExclusive(cfg: Config, x: State, y: State, i: nat)
    requires LockExclusive(cfg, x)
    requires i < |x.sessions| && Moves(cfg, x, y, i)
    ensures LockExclusive(cfg, y)
  {
    var a, b := x.sessions[i], y.sessions[i];
    if HoldsLock(b) && !HoldsLock(a) {
      assert b == Locked(a.cmd);
      forall j | 0 <= j < |x.sessions| && j != i && HoldsLock(x.sessions[j])
        ensures cfg.lockKey(LockName(ScopeOf(x.sessions[j].cmd))) != cfg.lockKey(LockName(ScopeOf(b.cmd)))
      {
        assert !HoldsKey(cfg, x.sessions[j], cfg.lockKey(LockName(ScopeOf(a.cmd))));
      }
    } else if HoldsLock(b) {
      assert b.cmd == a.cmd;
    }
  }
}
