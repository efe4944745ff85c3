/**
 * The global ceiling's real bound is reached from the empty table: any capacity
 * - 1 commands that fit their scopes, and K more in scopes with different lock
 * keys, can all be stored over K connections.
 */
module InboxTightness {
  import opened Common
  import opened Inbox
  import opened InboxProtocol
  import opened InboxQuota
  import opened InboxCeiling
  import opened InboxSequential

  /** Commands counted from 1, as sequence numbers are. */
  function CommandAt(cmds: seq<Command>, s: nat): Command
    requires 1 <= s <= |cmds|
  {
    cmds[s - 1]
  }

  /** The positions, counted from 1, of the commands of one scope. */
  function Positions(cmds: seq<Command>, scope: Scope): set<nat> {
    set s: nat | 1 <= s <= |cmds| && ScopeOf(CommandAt(cmds, s)) == scope
  }

  /** Recordable commands with keys of their own, no scope over its quota. */
  ghost predicate Fit(cfg: Config, cmds: seq<Command>) {
    && (forall i :: 0 <= i < |cmds| ==> IsRecordable(cmds[i]))
    && (forall i, j :: 0 <= i < j < |cmds| ==> KeyOf(cmds[i]) != KeyOf(cmds[j]))
    && (forall scope :: |Positions(cmds, scope)| <= cfg.scopeQuota)
  }

  /** The first `k` commands stored in order. */
  function Stored(cmds: seq<Command>, k: nat): Table
    requires k <= |cmds|
  {
    map s: nat | 1 <= s <= k :: NewRow(CommandAt(cmds, s))
  }

  /** The first `k` commands were recorded one after the other on the first connection. */
  function Filled(sessions: nat, cmds: seq<Command>, k: nat): State
    requires 0 < sessions && k <= |cmds|
  {
    State(Stored(cmds, k), k + 1,
          if k == 0 then Init(sessions).sessions else Init(sessions).sessions[0 := Answered(Ok(Recorded))])
  }

  lemma {:induction false} StoredSize(cmds: seq<Command>, k: nat)
    requires k <= |cmds|
    ensures |Stored(cmds, k)| == k
  {
    if k > 0 {
      StoredSize(cmds, k - 1);
      StoredOneMore(cmds, k - 1);
      OneRowMore(Stored(cmds, k - 1), k, NewRow(cmds[k - 1]));
    }
  }

  lemma StoredOneMore(cmds: seq<Command>, k: nat)
    requires k < |cmds|
    ensures Stored(cmds, k + 1) == Stored(cmds, k)[k + 1 := NewRow(cmds[k])]
  {
  }

  /** Any later command still finds room in its scope and a free key. */
  lemma LaterFits(cfg: Config, cmds: seq<Command>, k: nat, j: nat)
    requires Fit(cfg, cmds) && k <= j < |cmds|
    ensures FitsIn(cfg, Stored(cmds, k), cmds[j])
  {
    var taken := ScopeRows(Stored(cmds, k), ScopeOf(cmds[j]));
    assert j + 1 !in taken && CommandAt(cmds, j + 1) == cmds[j];
    SubsetIsSmaller(taken + {j + 1}, Positions(cmds, ScopeOf(cmds[j])));
  }

  lemma NobodyHoldsALock(cfg: Config, sessions: nat, cmds: seq<Command>, k: nat, key: int)
    requires 0 < sessions && k <= |cmds|
    ensures LockFree(cfg, Filled(sessions, cmds, k), key)
  {
  }

  lemma FilledNext(sessions: nat, cmds: seq<Command>, k: nat)
    requires 0 < sessions && k < |cmds|
    ensures var x := Filled(sessions, cmds, k);
            State(x.rows[x.nextSeq := NewRow(cmds[k])], x.nextSeq + 1, x.sessions[0 := Answered(Ok(Recorded))])
            == Filled(sessions, cmds, k + 1)
  {
    StoredOneMore(cmds, k);
    assert Filled(sessions, cmds, k).sessions[0 := Answered(Ok(Recorded))] == Filled(sessions, cmds, k + 1).sessions;
  }

  lemma FillOne(cfg: Config, sessions: nat, cmds: seq<Command>, k: nat)
    requires 0 < sessions && Fit(cfg, cmds) && k < |cmds| && k < cfg.capacity
    ensures CanFill(cfg, sessions, cmds, k)
  {
    LaterFits(cfg, cmds, k, k);
    StoredSize(cmds, k);
    NobodyHoldsALock(cfg, sessions, cmds, k, cfg.lockKey(LockName(ScopeOf(cmds[k]))));
    UndisturbedSuccess(cfg, Filled(sessions, cmds, k), 0, cmds[k]);
    FilledNext(sessions, cmds, k);
  }

  ghost predicate CanFill(cfg: Config, sessions: nat, cmds: seq<Command>, k: nat)
    requires 0 < sessions && k < |cmds|
  {
    exists steps :: Run(cfg, Filled(sessions, cmds, k), steps) == Filled(sessions, cmds, k + 1)
  }

  lemma {:induction false} FillUp(cfg: Config, sessions: nat, cmds: seq<Command>, k: nat) returns (steps: seq<Step>)
    requires 0 < sessions && k <= |cmds|
    requires forall j: nat :: j < k ==> CanFill(cfg, sessions, cmds, j)
    ensures Run(cfg, Init(sessions), steps) == Filled(sessions, cmds, k)
  {
    if k == 0 {
      steps := [];
      assert Stored(cmds, 0) == map[];
    } else {
      var init := FillUp(cfg, sessions, cmds, k - 1);
      assert CanFill(cfg, sessions, cmds, k - 1);
      var last :| Run(cfg, Filled(sessions, cmds, k - 1), last) == Filled(sessions, cmds, k);
      steps := Chain(cfg, Init(sessions), Filled(sessions, cmds, k - 1), Filled(sessions, cmds, k), init, last);
    }
  }

  lemma FilledCanOvershoot(cfg: Config, sessions: nat, cmds: seq<Command>, fill: nat)
    requires 0 < sessions && fill + sessions == |cmds| && fill == cfg.capacity - 1
    requires DistinctLocks(cfg, cmds[fill..]) && WellFormed(Stored(cmds, fill), fill + 1)
    requires AllFitIn(cfg, Stored(cmds, fill), cmds[fill..])
    ensures CanOvershoot(cfg, Filled(sessions, cmds, fill), cmds[fill..])
  {
    StoredSize(cmds, fill);
  }

  lemma SuffixFits(cfg: Config, rows: Table, cmds: seq<Command>, n: nat)
    requires n <= |cmds| && forall j: nat :: n <= j < |cmds| ==> FitsIn(cfg, rows, cmds[j])
    ensures AllFitIn(cfg, rows, cmds[n..])
  {
  }

  lemma LastFit(cfg: Config, cmds: seq<Command>, fill: nat)
    requires Fit(cfg, cmds) && fill <= |cmds|
    ensures AllFitIn(cfg, Stored(cmds, fill), cmds[fill..])
  {
    forall j: nat | fill <= j < |cmds| ensures FitsIn(cfg, Stored(cmds, fill), cmds[j]) {
      LaterFits(cfg, cmds, fill, j);
    }
    SuffixFits(cfg, Stored(cmds, fill), cmds, fill);
  }

  /**
   * The bound of capacity - 1 + K is reached from the empty table: given that
   * many commands that fit, the last K of them in scopes with different lock
   * keys, some interleaving of K connections stores them all.
   */
  lemma CeilingIsReached(cfg: Config, sessions: nat, cmds: seq<Command>) returns (steps: seq<Step>)
    requires ValidConfig(cfg) && 0 < sessions && |cmds| == cfg.capacity - 1 + sessions
    requires Fit(cfg, cmds) && DistinctLocks(cfg, cmds[cfg.capacity - 1..])
    ensures |Run(cfg, Init(sessions), steps).rows| == cfg.capacity - 1 + sessions
  {
    var fill := cfg.capacity - 1;
    forall k: nat | k < fill ensures CanFill(cfg, sessions, cmds, k) {
      FillOne(cfg, sessions, cmds, k);
    }
    var first := FillUp(cfg, sessions, cmds, fill);
    InitIsGood(cfg, sessions);
    EveryRunIsGood(cfg, Init(sessions), first);
    LastFit(cfg, cmds, fill);
    FilledCanOvershoot(cfg, sessions, cmds, fill);
    var second := OvershootFrom(cfg, Filled(sessions, cmds, fill), cmds[fill..]);
    steps := first + second;
    RunOfConcat(cfg, Init(sessions), first, second);
  }
}
