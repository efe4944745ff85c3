/**
 * What a resubmitted command is answered, over whole calls of `record`.
 *
 * A call that begins while its key is stored is answered from the row. A call
 * that looked the key up before some other connection stored it goes on to the
 * two counts, and there an identical command may still be refused for capacity.
 */
module InboxResubmission {
  import opened Common
  import opened Inbox
  import opened InboxProtocol
  import opened InboxQuota
  import opened InboxDelivery
  import opened InboxStatus
  import opened InboxCeiling
  import opened InboxSequential

  /** The connection begins no other call during these steps. */
  predicate SameCall(steps: seq<Step>, i: nat) {
    forall k :: 0 <= k < |steps| && steps[k].Begin? ==> steps[k].session != i
  }

  /** The same command again is already recorded; a difference in any field is a conflict. */
  function AnswerFrom(stored: Command, cmd: Command): Result<RecordResult, InboxError> {
    if SameFields(stored, cmd) then Ok(AlreadyRecorded) else Err(IdempotencyConflict)
  }

  lemma StoredKeyAnswers(rows: Table, nextSeq: nat, s: nat, cmd: Command)
    requires WellFormed(rows, nextSeq) && s in rows && SameName(rows[s].command, cmd)
    requires rows[s].command.deliveryAttempt == 0
    ensures HasKey(rows, KeyOf(cmd)) && ExistingAnswer(rows, cmd) == AnswerFrom(rows[s].command, cmd)
  {
  }

  // ------------------------------------------------- begun while the key is stored

  lemma OthersLeaveTheSession(cfg: Config, x: State, st: Step, i: nat)
    requires i < |x.sessions| && (IsTableStep(st) || st.session != i)
    ensures |Apply(cfg, x, st).sessions| == |x.sessions| && Apply(cfg, x, st).sessions[i] == x.sessions[i]
  {
    if !IsTableStep(st) {
      RecordStepMoves(cfg, x, st);
    }
  }

  lemma {:induction false} AnswerLasts(cfg: Config, x: State, steps: seq<Step>, i: nat)
    requires i < |x.sessions| && x.sessions[i].Answered? && SameCall(steps, i)
    ensures i < |Run(cfg, x, steps).sessions| && Run(cfg, x, steps).sessions[i] == x.sessions[i]
    decreases |steps|
  {
    if steps != [] {
      var init, st := steps[..|steps| - 1], steps[|steps| - 1];
      AnswerLasts(cfg, x, init, i);
      if IsTableStep(st) || st.session != i {
        OthersLeaveTheSession(cfg, Run(cfg, x, init), st, i);
      }
    }
  }

  /**
   * In every run, a call that begins while its key is stored changes no row and
   * is answered from the stored row, whatever happens afterwards.
   */
  lemma {:induction false} ResubmissionIsIdempotent(
    cfg: Config, sessions: nat, before: seq<Step>, i: nat, cmd: Command, s: nat, steps: seq<Step>)
    requires var x := Run(cfg, Init(sessions), before);
             && i < |x.sessions| && (x.sessions[i].Idle? || x.sessions[i].Answered?)
             && s in x.rows && SameName(x.rows[s].command, cmd)
    requires IsRecordable(cmd) && SameCall(steps, i)
    ensures var x := Run(cfg, Init(sessions), before);
            var begun := Apply(cfg, x, Begin(i, cmd));
            && begun.rows == x.rows && begun.nextSeq == x.nextSeq
            && i < |Run(cfg, begun, steps).sessions|
            && Run(cfg, begun, steps).sessions[i] == Answered(AnswerFrom(x.rows[s].command, cmd))
  {
    var x := Run(cfg, Init(sessions), before);
    InitIsGood(cfg, sessions);
    EveryRunIsGood(cfg, Init(sessions), before);
    EveryRunIsRecordable(cfg, sessions, before);
    StoredKeyAnswers(x.rows, x.nextSeq, s, cmd);
    AnswerLasts(cfg, Apply(cfg, x, Begin(i, cmd)), steps, i);
  }

  // ----------------------------------------------- stored after the call's lookup

  /** The rows of its scope that the call counted, once it has. */
  function ScopeCount(cfg: Config, x: State, steps: seq<Step>, i: nat): Option<nat>
    decreases |steps|
  {
    if steps == [] then None
    else
      var init := steps[..|steps| - 1];
      ScopeCountAfter(ScopeCount(cfg, x, init, i), Run(cfg, x, init), steps[|steps| - 1], i)
  }

  function ScopeCountAfter(counted: Option<nat>, x: State, st: Step, i: nat): Option<nat> {
    if counted.None? && st == CountScope(i) && i < |x.sessions| && x.sessions[i].Locked?
    then Some(|ScopeRows(x.rows, ScopeOf(x.sessions[i].cmd))|) else counted
  }

  /** The rows of the whole table that the call counted, once it has. */
  function TableCount(cfg: Config, x: State, steps: seq<Step>, i: nat): Option<nat>
    decreases |steps|
  {
    if steps == [] then None
    else
      var init := steps[..|steps| - 1];
      TableCountAfter(TableCount(cfg, x, init, i), Run(cfg, x, init), steps[|steps| - 1], i)
  }

  function TableCountAfter(counted: Option<nat>, x: State, st: Step, i: nat): Option<nat> {
    if counted.None? && st == CountAll(i) && i < |x.sessions| && x.sessions[i].ScopeCounted?
    then Some(|x.rows|) else counted
  }

  /** The transaction failed before the call was answered. */
  predicate Aborted(cfg: Config, x: State, steps: seq<Step>, i: nat)
    decreases |steps|
  {
    steps != [] &&
    var init := steps[..|steps| - 1];
    Aborted(cfg, x, init, i) || AbortedBy(Run(cfg, x, init), steps[|steps| - 1], i)
  }

  predicate AbortedBy(x: State, st: Step, i: nat) {
    st == Abort(i) && i < |x.sessions| && !x.sessions[i].Idle? && !x.sessions[i].Answered?
  }

  predicate HasRoom(count: Option<nat>, bound: nat) {
    count.Some? && count.value < bound
  }

  /** Where a call whose key is stored stands, given what it has counted. */
  ghost predicate Stands(
    cfg: Config, me: Session, cmd: Command, answer: Result<RecordResult, InboxError>,
    scope: Option<nat>, table: Option<nat>, aborted: bool)
  {
    match me
    case Idle => false
    case Inserted(_, _) => false
    case LookedUp(c) => c == cmd && scope.None? && table.None? && !aborted
    case Locked(c) => c == cmd && scope.None? && table.None? && !aborted
    case ScopeCounted(c) => c == cmd && HasRoom(scope, cfg.scopeQuota) && table.None? && !aborted
    case GlobalCounted(c) => c == cmd && HasRoom(scope, cfg.scopeQuota) && HasRoom(table, cfg.capacity) && !aborted
    case Conflicted(c) => c == cmd && HasRoom(scope, cfg.scopeQuota) && HasRoom(table, cfg.capacity) && !aborted
    case Answered(r) =>
      if aborted then r == Err(Internal)
      else
        && scope.Some? && (HasRoom(scope, cfg.scopeQuota) ==> table.Some?)
        && r == if HasRoom(scope, cfg.scopeQuota) && HasRoom(table, cfg.capacity) then answer else Err(Capacity)
  }

  lemma StepKeepsStanding(
    cfg: Config, x: State, st: Step, i: nat, cmd: Command, answer: Result<RecordResult, InboxError>,
    scope: Option<nat>, table: Option<nat>, aborted: bool)
    requires i < |x.sessions| && Stands(cfg, x.sessions[i], cmd, answer, scope, table, aborted)
    requires HasKey(x.rows, KeyOf(cmd)) && ExistingAnswer(x.rows, cmd) == answer
    requires st.Begin? ==> st.session != i
    ensures var y := Apply(cfg, x, st);
            && i < |y.sessions|
            && Stands(cfg, y.sessions[i], cmd, answer, ScopeCountAfter(scope, x, st, i),
                      TableCountAfter(table, x, st, i), aborted || AbortedBy(x, st, i))
  {
    if IsTableStep(st) || st.session != i {
      OthersLeaveTheSession(cfg, x, st, i);
    }
  }

  lemma {:induction false} CallStands(cfg: Config, x: State, steps: seq<Step>, i: nat, cmd: Command, s: nat)
    requires Good(cfg, x) && i < |x.sessions| && (x.sessions[i] == LookedUp(cmd) || x.sessions[i] == Locked(cmd))
    requires s in x.rows && SameName(x.rows[s].command, cmd) && x.rows[s].command.deliveryAttempt == 0
    requires s in Run(cfg, x, steps).rows && SameCall(steps, i)
    ensures var y := Run(cfg, x, steps);
            && i < |y.sessions|
            && Stands(cfg, y.sessions[i], cmd, AnswerFrom(x.rows[s].command, cmd), ScopeCount(cfg, x, steps, i),
                      TableCount(cfg, x, steps, i), Aborted(cfg, x, steps, i))
    decreases |steps|
  {
    if steps != [] {
      var init, st := steps[..|steps| - 1], steps[|steps| - 1];
      var y := Run(cfg, x, init);
      EveryRunIsGood(cfg, x, init);
      StoredNeverInFlight(cfg, x, init, s);
      StoredOnlyIfStored(cfg, y, st, s);
      RunEvolves(cfg, x, init, s);
      CallStands(cfg, x, init, i, cmd, s);
      StoredKeyAnswers(y.rows, y.nextSeq, s, cmd);
      StepKeepsStanding(cfg, y, st, i, cmd, AnswerFrom(x.rows[s].command, cmd), ScopeCount(cfg, x, init, i),
                        TableCount(cfg, x, init, i), Aborted(cfg, x, init, i));
    }
  }

  /**
   * In every run, a call whose key came to be stored after its lookup, and stays
   * stored, never inserts a row. Unless its transaction fails it is answered from
   * the row if and only if it found room at both counts; otherwise it is refused
   * for capacity.
   */
  lemma {:induction false} LateResubmission(
    cfg: Config, sessions: nat, before: seq<Step>, steps: seq<Step>, i: nat, cmd: Command, s: nat)
    requires var x := Run(cfg, Init(sessions), before);
             && i < |x.sessions| && (x.sessions[i] == LookedUp(cmd) || x.sessions[i] == Locked(cmd))
             && s in x.rows && SameName(x.rows[s].command, cmd)
             && s in Run(cfg, x, steps).rows
    requires SameCall(steps, i)
    ensures var x := Run(cfg, Init(sessions), before);
            var y := Run(cfg, x, steps);
            var scope, table := ScopeCount(cfg, x, steps, i), TableCount(cfg, x, steps, i);
            && i < |y.sessions| && !y.sessions[i].Inserted?
            && (y.sessions[i].Answered? && !Aborted(cfg, x, steps, i) ==>
                  scope.Some? && (HasRoom(scope, cfg.scopeQuota) ==> table.Some?))
            && (y.sessions[i].Answered? ==>
                  y.sessions[i].result ==
                  if Aborted(cfg, x, steps, i) then Err(Internal)
                  else if HasRoom(scope, cfg.scopeQuota) && HasRoom(table, cfg.capacity)
                  then AnswerFrom(x.rows[s].command, cmd) else Err(Capacity))
  {
    InitIsGood(cfg, sessions);
    EveryRunIsGood(cfg, Init(sessions), before);
    EveryRunIsRecordable(cfg, sessions, before);
    CallStands(cfg, Run(cfg, Init(sessions), before), steps, i, cmd, s);
  }

  // ----------------------------------------------------------------- the exception

  /** Both connections look the key up; the second records it; the first then counts. */
  function TwoAtOnce(c: Command): seq<Step> {
    [Begin(0, c)] + (Transaction(1, c) + [Commit(1)]) + [TakeLock(0)] + [CountScope(0)]
  }

  lemma SecondRecords(cfg: Config, c: Command)
    requires ValidConfig(cfg) && IsRecordable(c)
    ensures Run(cfg, Init(2), [Begin(0, c)] + (Transaction(1, c) + [Commit(1)]))
         == State(map[1 := NewRow(c)], 2, [LookedUp(c), Answered(Ok(Recorded))])
  {
    var looked := Put(Init(2), 0, LookedUp(c));
    assert looked == State(map[], 1, [LookedUp(c), Idle]);
    RunOfOne(cfg, Init(2), [], Begin(0, c));
    assert [] + [Begin(0, c)] == [Begin(0, c)];
    RunOfConcat(cfg, Init(2), [Begin(0, c)], Transaction(1, c) + [Commit(1)]);
    assert ScopeRows(looked.rows, ScopeOf(c)) == {};
    UndisturbedSuccess(cfg, looked, 1, c);
  }

  lemma FirstIsRefused(cfg: Config, c: Command)
    requires cfg.scopeQuota == 1
    ensures var x := State(map[1 := NewRow(c)], 2, [LookedUp(c), Answered(Ok(Recorded))]);
            Apply(cfg, Apply(cfg, x, TakeLock(0)), CountScope(0)) == Put(x, 0, Answered(Err(Capacity)))
  {
    var x := State(map[1 := NewRow(c)], 2, [LookedUp(c), Answered(Ok(Recorded))]);
    assert Apply(cfg, x, TakeLock(0)) == Put(x, 0, Locked(c));
    assert ScopeRows(x.rows, ScopeOf(c)) == {1};
  }

  /**
   * An identical command is refused for capacity: with a quota of one, two
   * connections record the same command and the slower one is refused although
   * the row that fills the scope stores exactly its command.
   */
  lemma IdenticalRecordIsRefused(cfg: Config, c: Command)
    requires ValidConfig(cfg) && cfg.scopeQuota == 1 && IsRecordable(c)
    ensures var y := Run(cfg, Init(2), TwoAtOnce(c));
            && |y.sessions| == 2 && y.sessions[0] == Answered(Err(Capacity))
            && 1 in y.rows && SameFields(y.rows[1].command, c)
  {
    SecondRecords(cfg, c);
    var recorded := [Begin(0, c)] + (Transaction(1, c) + [Commit(1)]);
    RunOfOne(cfg, Init(2), recorded, TakeLock(0));
    RunOfOne(cfg, Init(2), recorded + [TakeLock(0)], CountScope(0));
    FirstIsRefused(cfg, c);
  }
}
