/** Every stored row is the command its own call submitted, field for field. */
module InboxIdentity {
  import opened Common
  import opened Inbox
  import opened InboxProtocol
  import opened InboxQuota

  /** The command the connection's latest call began with. */
  function Begun(cfg: Config, x: State, steps: seq<Step>, i: nat): Option<Command>
    decreases |steps|
  {
    if steps == [] then None
    else
      var init, st := steps[..|steps| - 1], steps[|steps| - 1];
      if st.Begin? && st.session == i && MayBegin(Run(cfg, x, init), i) then Some(st.cmd) else Begun(cfg, x, init, i)
  }

  predicate MayBegin(x: State, i: nat) {
    i < |x.sessions| && (x.sessions[i].Idle? || x.sessions[i].Answered?)
  }

  /** The command submitted by the call that committed sequence `s`. */
  function Author(cfg: Config, x: State, steps: seq<Step>, s: nat): Option<Command>
    decreases |steps|
  {
    if steps == [] then None
    else
      var init, st := steps[..|steps| - 1], steps[|steps| - 1];
      if st.Commit? && CommitsAs(Run(cfg, x, init), st.session, s) then Begun(cfg, x, init, st.session)
      else Author(cfg, x, init, s)
  }

  predicate CommitsAs(x: State, i: nat, s: nat) {
    i < |x.sessions| && x.sessions[i].Inserted? && x.sessions[i].sequence == s
  }

  predicate InCall(s: Session) {
    !s.Idle? && !s.Answered?
  }

  lemma StepKeepsTheCommand(cfg: Config, x: State, st: Step, i: nat)
    requires i < |x.sessions| && i < |Apply(cfg, x, st).sessions| && InCall(Apply(cfg, x, st).sessions[i])
    ensures var y := Apply(cfg, x, st);
            if st.Begin? && st.session == i && MayBegin(x, i) then y.sessions[i].cmd == st.cmd
            else InCall(x.sessions[i]) && y.sessions[i].cmd == x.sessions[i].cmd
  {
  }

  /** A connection inside a call works on the command that call began with. */
  lemma {:induction false} CallKeepsItsCommand(cfg: Config, sessions: nat, steps: seq<Step>, i: nat)
    requires var x := Run(cfg, Init(sessions), steps); i < |x.sessions| && InCall(x.sessions[i])
    ensures Begun(cfg, Init(sessions), steps, i) == Some(Run(cfg, Init(sessions), steps).sessions[i].cmd)
    decreases |steps|
  {
    if steps != [] {
      var init, st := steps[..|steps| - 1], steps[|steps| - 1];
      var x := Run(cfg, Init(sessions), init);
      if !IsTableStep(st) {
        RecordStepMoves(cfg, x, st);
      }
      StepKeepsTheCommand(cfg, x, st, i);
      if !(st.Begin? && st.session == i && MayBegin(x, i)) {
        CallKeepsItsCommand(cfg, sessions, init, i);
      }
    }
  }

  lemma NewRowKeepsTheFields(c: Command)
    ensures SameFields(NewRow(c).command, c) && NewRow(c) == Row(NewRow(c).command, 0, None, None, None)
    ensures NewRow(c).command.deliveryAttempt == 0
  {
  }

  lemma CommittedRow(cfg: Config, x: State, i: nat, s: nat)
    requires CommitsAs(x, i, s)
    ensures s in Apply(cfg, x, Commit(i)).rows
    ensures SameFields(Apply(cfg, x, Commit(i)).rows[s].command, x.sessions[i].cmd)
  {
    NewRowKeepsTheFields(x.sessions[i].cmd);
  }

  lemma OtherStepsKeepTheRow(cfg: Config, x: State, st: Step, s: nat)
    requires InsertsFresh(x) && s in Apply(cfg, x, st).rows
    requires !(st.Commit? && CommitsAs(x, st.session, s))
    ensures s in x.rows && Apply(cfg, x, st).rows[s].command == x.rows[s].command
  {
    if IsTableStep(st) {
      TableStepsKeepCommands(cfg, x, st);
    }
  }

  /**
   * In every run, every stored row agrees in all ten fields with the command
   * that was submitted by the call which committed it.
   */
  lemma {:induction false} RowIsWhatWasSubmitted(cfg: Config, sessions: nat, steps: seq<Step>, s: nat)
    requires s in Run(cfg, Init(sessions), steps).rows
    ensures var author := Author(cfg, Init(sessions), steps, s);
            author.Some? && SameFields(Run(cfg, Init(sessions), steps).rows[s].command, author.value)
    decreases |steps|
  {
    if steps != [] {
      var init, st := steps[..|steps| - 1], steps[|steps| - 1];
      var x := Run(cfg, Init(sessions), init);
      InitIsGood(cfg, sessions);
      EveryRunIsGood(cfg, Init(sessions), init);
      if st.Commit? && CommitsAs(x, st.session, s) {
        CommittedRow(cfg, x, st.session, s);
        CallKeepsItsCommand(cfg, sessions, init, st.session);
      } else {
        OtherStepsKeepTheRow(cfg, x, st, s);
        RowIsWhatWasSubmitted(cfg, sessions, init, s);
      }
    }
  }
}
