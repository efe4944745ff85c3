/**
 * Exactly which commands a poll is handed, and exactly what status is
 * reported, read off the history of the rows.
 */
module InboxClaims {
  import opened Common
  import opened Inbox
  import opened InboxStore
  import opened InboxProtocol
  import opened InboxQuota
  import opened InboxDelivery
  import opened InboxStarvation

  /** What the history says about a command that may be handed out now. */
  ghost predicate MayGoOut(cfg: Config, h: seq<Event>, now: int) {
    && !Ever(h, (e: Event) => e.Acked?) && !Ever(h, (e: Event) => e.Retracted?)
    && Deliveries(h) < cfg.maxAttempts
    && (forall i :: 0 <= i < |h| && h[i].Delivered? ==> now - h[i].at >= cfg.redeliveryAfter)
  }

  lemma EligibleMeansMayGoOut(cfg: Config, r: Row, h: seq<Event>, agentId: string, now: nat)
    requires RowMatches(r, h)
    ensures Eligible(r, PollOf(cfg, agentId, now)) <==> r.command.agentId == agentId && MayGoOut(cfg, h, now)
  {
    NoDeliveryCounted(h);
    if r.lastDelivered.Some? {
      var i :| 0 <= i < |h| && h[i] == Delivered(r.lastDelivered.value);
      assert h[i].Delivered?;
    }
  }

  /** Row `t` is due for this poll: right agent, right scope, not locked, and its history allows it. */
  ghost predicate Due(cfg: Config, sessions: nat, steps: seq<Step>, st: Step, t: nat)
    requires st.Claim? && t in Run(cfg, Init(sessions), steps).rows
  {
    var c := Run(cfg, Init(sessions), steps).rows[t].command;
    && c.agentId == st.agentId
    && st.scopes(Scope(c.workspaceId, c.namespaceId))
    && t !in st.locked
    && MayGoOut(cfg, History(cfg, Init(sessions), steps, t), st.now)
  }

  ghost function DueBefore(cfg: Config, sessions: nat, steps: seq<Step>, st: Step, s: nat): set<nat>
    requires st.Claim?
  {
    var rows := Run(cfg, Init(sessions), steps).rows;
    set t | t in rows && t < s && Due(cfg, sessions, steps, st, t)
  }

  /** Every claimable row the caller may read, in order. */
  function Candidates(cfg: Config, x: State, st: Step): seq<nat>
    requires st.Claim?
  {
    Authorised(x.rows, st.scopes, Scan(x.rows, PollOf(cfg, st.agentId, st.now), st.locked, 0, x.nextSeq))
  }

  lemma CandidatesAreClaimable(cfg: Config, x: State, st: Step, s: nat)
    requires st.Claim? && WellFormed(x.rows, x.nextSeq)
    ensures Ascending(Candidates(cfg, x, st))
    ensures s in Candidates(cfg, x, st) <==>
            Claimable(x.rows, PollOf(cfg, st.agentId, st.now), st.locked, s) && MayRead(x.rows, st.scopes, s)
  {
    var q := PollOf(cfg, st.agentId, st.now);
    var all := Scan(x.rows, q, st.locked, 0, x.nextSeq);
    ScanIsCompleteAndAscending(x.rows, q, st.locked, 0, x.nextSeq);
    AuthorisedInOrder(x.rows, st.scopes, all);
    if Claimable(x.rows, q, st.locked, s) && MayRead(x.rows, st.scopes, s) {
      var j :| 0 <= j < |all| && all[j] == s;
      AuthorisedKeeps(x.rows, st.scopes, all, j);
    }
  }

  lemma CandidatesAreDue(cfg: Config, sessions: nat, steps: seq<Step>, st: Step, t: nat)
    requires st.Claim?
    ensures var x := Run(cfg, Init(sessions), steps);
            t in Candidates(cfg, x, st) <==> t in x.rows && Due(cfg, sessions, steps, st, t)
  {
    var x := Run(cfg, Init(sessions), steps);
    InitIsGood(cfg, sessions);
    EveryRunIsGood(cfg, Init(sessions), steps);
    CandidatesAreClaimable(cfg, x, st, t);
    if t in x.rows {
      DeliverySafety(cfg, sessions, steps, t);
      EligibleMeansMayGoOut(cfg, x.rows[t], History(cfg, Init(sessions), steps, t), st.agentId, st.now);
    }
  }

  function ElementsOf(a: seq<nat>): set<nat> {
    set t | t in a
  }

  function SmallerIn(a: seq<nat>, s: nat): set<nat> {
    set t | t in a && t < s
  }

  lemma ElementsOfOneMore(a: seq<nat>, x: nat)
    ensures ElementsOf(a + [x]) == ElementsOf(a) + {x}
  {
  }

  lemma LastIsNew(a: seq<nat>)
    requires Ascending(a) && a != []
    ensures a == a[..|a| - 1] + [a[|a| - 1]] && a[|a| - 1] !in ElementsOf(a[..|a| - 1])
  {
  }

  lemma {:induction false} ElementsOfAscending(a: seq<nat>)
    requires Ascending(a)
    ensures |ElementsOf(a)| == |a|
  {
    if a != [] {
      var init, last := a[..|a| - 1], a[|a| - 1];
      ElementsOfAscending(init);
      ElementsOfOneMore(init, last);
      LastIsNew(a);
    }
  }

  /** In an ascending sequence an element stands behind exactly the smaller ones. */
  lemma PlaceInAscending(a: seq<nat>, k: nat)
    requires Ascending(a) && k < |a|
    ensures |SmallerIn(a, a[k])| == k
  {
    ElementsOfAscending(a[..k]);
    forall t | t in a && t < a[k] ensures t in a[..k] {
      var j :| 0 <= j < |a| && a[j] == t;
      assert a[..k][j] == t;
    }
    assert SmallerIn(a, a[k]) == ElementsOf(a[..k]);
  }

  lemma TakenByPlace(a: seq<nat>, n: nat, s: nat)
    requires Ascending(a) && s in a
    ensures s in Take(a, n) <==> |SmallerIn(a, s)| < n
  {
    var k :| 0 <= k < |a| && a[k] == s;
    PlaceInAscending(a, k);
    if k < n {
      assert Take(a, n)[k] == s;
    }
    if s in Take(a, n) {
      var j :| 0 <= j < |Take(a, n)| && Take(a, n)[j] == s;
      assert a[j] == a[k];
    }
  }

  /**
   * In every run, a poll is handed a command if and only if it is due and fewer
   * than `limit` due commands stand before it.
   */
  lemma {:induction false} ClaimedExactly(cfg: Config, sessions: nat, steps: seq<Step>, st: Step, s: nat)
    requires st.Claim? && st.now < I64_LIMIT && cfg.redeliveryAfter < I64_LIMIT
    requires s in Run(cfg, Init(sessions), steps).rows
    ensures EventsOf(cfg, Run(cfg, Init(sessions), steps), st, s) == [Delivered(st.now)] <==>
            Due(cfg, sessions, steps, st, s) && |DueBefore(cfg, sessions, steps, st, s)| < st.limit
  {
    var x := Run(cfg, Init(sessions), steps);
    var a := Candidates(cfg, x, st);
    HandedOutExactly(cfg, sessions, steps, st, s);
    forall t: nat ensures t in a <==> t in x.rows && Due(cfg, sessions, steps, st, t) {
      CandidatesAreDue(cfg, sessions, steps, st, t);
    }
    InitIsGood(cfg, sessions);
    EveryRunIsGood(cfg, Init(sessions), steps);
    CandidatesAreClaimable(cfg, x, st, s);
    assert SmallerIn(a, s) == DueBefore(cfg, sessions, steps, st, s);
    if s in a {
      TakenByPlace(a, st.limit, s);
    }
  }

  lemma AttemptsAreDeliveries(cfg: Config, sessions: nat, steps: seq<Step>, s: nat)
    requires s in Run(cfg, Init(sessions), steps).rows
    ensures Run(cfg, Init(sessions), steps).rows[s].attempts == Deliveries(History(cfg, Init(sessions), steps, s))
  {
    DeliverySafety(cfg, sessions, steps, s);
  }

  /** The commands a claim step answers with. */
  function Answer(cfg: Config, x: State, st: Step): (cs: seq<Command>)
    requires st.Claim?
    ensures |cs| == |Claimed(cfg, x, st)|
  {
    HandedAll(Deliver(x.rows, Claimed(cfg, x, st), st.now), Claimed(cfg, x, st))
  }

  lemma AnswerIsHandOut(cfg: Config, x: State, st: Step, k: nat)
    requires st.Claim? && k < |Claimed(cfg, x, st)|
    ensures var r := x.rows[Claimed(cfg, x, st)[k]]; IsHandOutOf(Answer(cfg, x, st)[k], r.command, r.attempts)
  {
    HandedAllAreHandOuts(x.rows, Claimed(cfg, x, st), st.now);
  }

  /**
   * What the agent gets: for each row it is handed, the stored command in every
   * field, numbered one more than the deliveries before it.
   */
  lemma {:induction false} HandedOutAsStored(cfg: Config, sessions: nat, steps: seq<Step>, st: Step, k: nat)
    requires st.Claim? && k < |Claimed(cfg, Run(cfg, Init(sessions), steps), st)|
    ensures var x := Run(cfg, Init(sessions), steps);
            var s := Claimed(cfg, x, st)[k];
            IsHandOutOf(Answer(cfg, x, st)[k], x.rows[s].command, Deliveries(History(cfg, Init(sessions), steps, s)))
  {
    var x := Run(cfg, Init(sessions), steps);
    AnswerIsHandOut(cfg, x, st, k);
    AttemptsAreDeliveries(cfg, sessions, steps, Claimed(cfg, x, st)[k]);
  }

  /** The reported status, read off the history. */
  ghost predicate StatusFits(status: DeliveryStatus, h: seq<Event>, maxAttempts: nat) {
    var settled := Ever(h, (e: Event) => e.Acked?) || Ever(h, (e: Event) => e.Retracted?);
    match status
    case StatusCancelled => Ever(h, (e: Event) => e.Retracted?)
    case StatusAcknowledged => Ever(h, (e: Event) => e.Acked?) && !Ever(h, (e: Event) => e.Retracted?)
    case StatusPending => !settled && Deliveries(h) == 0
    case StatusDelivered => !settled && 0 < Deliveries(h) < maxAttempts
    case StatusExhausted => !settled && 0 < Deliveries(h) == maxAttempts
  }

  /**
   * In every run, a stored command is reported Cancelled, Acknowledged, Pending,
   * Delivered or Exhausted exactly when its history says so.
   */
  lemma {:induction false} StatusReportedExactly(
    cfg: Config, sessions: nat, steps: seq<Step>, s: nat, status: DeliveryStatus)
    requires s in Run(cfg, Init(sessions), steps).rows
    ensures StatusOf(Run(cfg, Init(sessions), steps).rows[s], cfg.maxAttempts) == status <==>
            StatusFits(status, History(cfg, Init(sessions), steps, s), cfg.maxAttempts)
  {
    DeliverySafety(cfg, sessions, steps, s);
  }
}
