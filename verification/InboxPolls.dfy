/**
 * Overlapping polls. A claim is a transaction of several statements: it reads
 * batches `FOR UPDATE SKIP LOCKED`, each holding the rows it read, and then
 * updates the selected rows and commits, which lets go of every row it held.
 * Any other transaction may run between two of these statements; one that would
 * change a held row waits. The update and the commit are one move, since
 * nobody sees the update before the commit.
 *
 * Every such run is proved to be a run of `InboxProtocol`, in which a claim is
 * a single step, so what is proved there holds for overlapping polls too.
 */
module InboxPolls {
  import opened Common
  import opened Inbox
  import opened InboxStore
  import opened InboxProtocol
  import opened InboxQuota
  import opened InboxDelivery
  import opened InboxStarvation

  /** Where one connection stands inside `claim`; `more` is off after a short batch. */
  datatype Poller =
    | Free
    | Polling(
        agentId: string, scopes: Scope -> bool, limit: nat, now: nat,
        cursor: nat, selected: seq<nat>, held: set<nat>, more: bool)

  datatype World = World(inner: State, pollers: seq<Poller>)

  datatype Move =
    | StartPoll(p: nat, agentId: string, scopes: Scope -> bool, limit: nat, now: nat)
    | ReadBatch(p: nat, skipped: set<nat>, batchSize: nat)
    | HandOut(p: nat)
    | GiveUp(p: nat)
    | Other(st: Step)

  predicate IsPolling(w: World, p: nat) {
    p < |w.pollers| && w.pollers[p].Polling?
  }

  predicate IsHeld(pollers: seq<Poller>, s: nat) {
    exists p :: 0 <= p < |pollers| && pollers[p].Polling? && s in pollers[p].held
  }

  function HeldRows(w: World): set<nat> {
    set s | s in w.inner.rows && IsHeld(w.pollers, s)
  }

  /** One locking read: rows that others hold, known here or not, are skipped. */
  function BatchOf(cfg: Config, w: World, me: Poller, skipped: set<nat>, batchSize: nat): seq<nat>
    requires me.Polling?
  {
    Take(Scan(w.inner.rows, PollOf(cfg, me.agentId, me.now), skipped + HeldRows(w), me.cursor, w.inner.nextSeq),
         batchSize)
  }

  function AfterBatch(rows: Table, me: Poller, batch: seq<nat>, batchSize: nat): Poller
    requires me.Polling?
  {
    me.(cursor := if batch == [] then me.cursor else batch[|batch| - 1],
        selected := Take(me.selected + Authorised(rows, me.scopes, batch), me.limit),
        held := me.held + (set s | s in batch),
        more := |batch| == batchSize)
  }

  predicate CanRead(w: World, p: nat) {
    IsPolling(w, p) && w.pollers[p].more && |w.pollers[p].selected| < w.pollers[p].limit
  }

  /** The scan is over, and the update would find every selected row. */
  predicate CanHandOut(w: World, p: nat) {
    && IsPolling(w, p) && !CanRead(w, p)
    && (forall i :: 0 <= i < |w.pollers[p].selected| ==> w.pollers[p].selected[i] in w.inner.rows)
  }

  function RowsAfterHandOut(rows: Table, ids: seq<nat>, now: int): Table
    requires forall i :: 0 <= i < |ids| ==> ids[i] in rows
  {
    if AllRecordable(HandedAll(Deliver(rows, ids, now), ids)) then Deliver(rows, ids, now) else rows
  }

  /** A transaction that leaves every held row alone need not wait. */
  predicate NeedNotWait(cfg: Config, w: World, st: Step) {
    var after := Apply(cfg, w.inner, st).rows;
    forall s :: s in HeldRows(w) ==> s in after && after[s] == w.inner.rows[s]
  }

  function Do(cfg: Config, w: World, m: Move): World {
    match m
    case StartPoll(p, agentId, scopes, limit, now) =>
      if p >= |w.pollers| || w.pollers[p].Polling? || now >= I64_LIMIT || cfg.redeliveryAfter >= I64_LIMIT then w
      else w.(pollers := w.pollers[p := Polling(agentId, scopes, limit, now, 0, [], {}, true)])
    case ReadBatch(p, skipped, batchSize) =>
      if !CanRead(w, p) || batchSize == 0 then w
      else
        var batch := BatchOf(cfg, w, w.pollers[p], skipped, batchSize);
        w.(pollers := w.pollers[p := AfterBatch(w.inner.rows, w.pollers[p], batch, batchSize)])
    case HandOut(p) =>
      if !CanHandOut(w, p) then w
      else
        var me := w.pollers[p];
        World(w.inner.(rows := RowsAfterHandOut(w.inner.rows, me.selected, me.now)), w.pollers[p := Free])
    case GiveUp(p) =>
      if p >= |w.pollers| then w else w.(pollers := w.pollers[p := Free])
    case Other(st) =>
      if st.Claim? || !NeedNotWait(cfg, w, st) then w else w.(inner := Apply(cfg, w.inner, st))
  }

  function Start(sessions: nat, pollers: nat): World {
    World(Init(sessions), seq(pollers, _ => Free))
  }

  function Play(cfg: Config, w: World, moves: seq<Move>): World
    decreases |moves|
  {
    if moves == [] then w else Do(cfg, Play(cfg, w, moves[..|moves| - 1]), moves[|moves| - 1])
  }

  // --------------------------------------------------------------- the invariant

  ghost predicate Fine(cfg: Config, rows: Table, me: Poller) {
    me.Polling? ==>
      && me.now < I64_LIMIT && cfg.redeliveryAfter < I64_LIMIT
      && Ascending(me.selected) && |me.selected| <= me.limit
      && (forall i :: 0 <= i < |me.selected| ==>
            me.selected[i] in me.held && MayRead(rows, me.scopes, me.selected[i]))
      && (forall s :: s in me.held ==>
            s <= me.cursor && s in rows && Eligible(rows[s], PollOf(cfg, me.agentId, me.now)))
  }

  ghost predicate AllFine(cfg: Config, w: World) {
    forall p :: 0 <= p < |w.pollers| ==> Fine(cfg, w.inner.rows, w.pollers[p])
  }

  /** No row is held by two polls. */
  ghost predicate Disjoint(pollers: seq<Poller>) {
    forall p, q :: 0 <= p < |pollers| && 0 <= q < |pollers| && p != q ==>
      (pollers[p].Polling? && pollers[q].Polling? ==> pollers[p].held !! pollers[q].held)
  }

  /** A poll is not disturbed by changes to rows it does not hold. */
  lemma UndisturbedStaysFine(cfg: Config, rows: Table, after: Table, me: Poller)
    requires Fine(cfg, rows, me)
    requires me.Polling? ==> forall s :: s in me.held ==> s in after && s in rows && after[s] == rows[s]
    ensures Fine(cfg, after, me)
  {
  }

  lemma {:induction false} AscendingConcat(a: seq<nat>, b: seq<nat>, cut: nat)
    requires Ascending(a) && Ascending(b)
    requires (forall i :: 0 <= i < |a| ==> a[i] <= cut) && (forall i :: 0 <= i < |b| ==> cut < b[i])
    ensures Ascending(a + b)
  {
  }

  /** A batch is ascending, beyond the cursor, claimable and held by nobody. */
  lemma BatchIsNew(cfg: Config, w: World, me: Poller, skipped: set<nat>, batchSize: nat)
    requires me.Polling?
    ensures var batch := BatchOf(cfg, w, me, skipped, batchSize);
            && Ascending(batch)
            && (forall i :: 0 <= i < |batch| ==>
                  && me.cursor < batch[i] && batch[i] in w.inner.rows && batch[i] !in HeldRows(w)
                  && Eligible(w.inner.rows[batch[i]], PollOf(cfg, me.agentId, me.now)))
  {
    ScanIsCompleteAndAscending(
      w.inner.rows, PollOf(cfg, me.agentId, me.now), skipped + HeldRows(w), me.cursor, w.inner.nextSeq);
  }

  lemma BatchStaysFine(cfg: Config, rows: Table, me: Poller, batch: seq<nat>, batchSize: nat)
    requires me.Polling? && Fine(cfg, rows, me) && Ascending(batch)
    requires forall i :: 0 <= i < |batch| ==>
      me.cursor < batch[i] && batch[i] in rows && Eligible(rows[batch[i]], PollOf(cfg, me.agentId, me.now))
    ensures Fine(cfg, rows, AfterBatch(rows, me, batch, batchSize))
  {
    var more := Authorised(rows, me.scopes, batch);
    AuthorisedInOrder(rows, me.scopes, batch);
    forall i | 0 <= i < |more| ensures more[i] in batch && me.cursor < more[i] {
      assert more[i] in batch;
    }
    AscendingConcat(me.selected, more, me.cursor);
    var all := me.selected + more;
    forall i | 0 <= i < |all| ensures all[i] in me.held + (set s | s in batch) && MayRead(rows, me.scopes, all[i]) {
      if i >= |me.selected| {
        assert all[i] == more[i - |me.selected|];
      }
    }
  }

  lemma ReadKeepsInvariant(cfg: Config, w: World, p: nat, skipped: set<nat>, batchSize: nat)
    requires AllFine(cfg, w) && Disjoint(w.pollers) && CanRead(w, p)
    ensures var y := Do(cfg, w, ReadBatch(p, skipped, batchSize)); AllFine(cfg, y) && Disjoint(y.pollers)
  {
    var me := w.pollers[p];
    var batch := BatchOf(cfg, w, me, skipped, batchSize);
    BatchIsNew(cfg, w, me, skipped, batchSize);
    BatchStaysFine(cfg, w.inner.rows, me, batch, batchSize);
    forall q | 0 <= q < |w.pollers| && q != p && w.pollers[q].Polling?
      ensures w.pollers[q].held !! (set s | s in batch)
    {
      forall s | s in batch ensures s !in w.pollers[q].held {
        assert s in w.inner.rows && s !in HeldRows(w);
      }
    }
  }

  /** Handing out changes only rows of the poll itself, and every other poll goes on undisturbed. */
  lemma HandOutKeepsInvariant(cfg: Config, w: World, p: nat)
    requires AllFine(cfg, w) && Disjoint(w.pollers) && CanHandOut(w, p)
    ensures var y := Do(cfg, w, HandOut(p)); AllFine(cfg, y) && Disjoint(y.pollers)
  {
    var y, me := Do(cfg, w, HandOut(p)), w.pollers[p];
    forall q | 0 <= q < |y.pollers| ensures Fine(cfg, y.inner.rows, y.pollers[q]) {
      if q != p && w.pollers[q].Polling? {
        forall s | s in w.pollers[q].held
          ensures s in w.inner.rows && s in y.inner.rows && y.inner.rows[s] == w.inner.rows[s]
        {
          assert s !in me.selected;
        }
        UndisturbedStaysFine(cfg, w.inner.rows, y.inner.rows, y.pollers[q]);
      }
    }
  }

  lemma OtherKeepsInvariant(cfg: Config, w: World, st: Step)
    requires AllFine(cfg, w) && Disjoint(w.pollers)
    ensures var y := Do(cfg, w, Other(st)); AllFine(cfg, y) && Disjoint(y.pollers)
  {
    var y := Do(cfg, w, Other(st));
    forall q | 0 <= q < |y.pollers| ensures Fine(cfg, y.inner.rows, y.pollers[q]) {
      if y != w && w.pollers[q].Polling? {
        forall s | s in w.pollers[q].held
          ensures s in w.inner.rows && s in y.inner.rows && y.inner.rows[s] == w.inner.rows[s]
        {
          assert s in HeldRows(w);
        }
        UndisturbedStaysFine(cfg, w.inner.rows, y.inner.rows, y.pollers[q]);
      }
    }
  }

  lemma MoveKeepsInvariant(cfg: Config, w: World, m: Move)
    requires AllFine(cfg, w) && Disjoint(w.pollers)
    ensures AllFine(cfg, Do(cfg, w, m)) && Disjoint(Do(cfg, w, m).pollers)
  {
    match m
    case StartPoll(_, _, _, _, _) =>
    case GiveUp(_) =>
    case ReadBatch(p, skipped, batchSize) =>
      if CanRead(w, p) {
        ReadKeepsInvariant(cfg, w, p, skipped, batchSize);
      }
    case HandOut(p) =>
      if CanHandOut(w, p) {
        HandOutKeepsInvariant(cfg, w, p);
      }
    case Other(st) =>
      OtherKeepsInvariant(cfg, w, st);
  }

  // ------------------------------------------------------- a poll is one claim step

  /** The single claim step a poll amounts to: every row it did not select counts as locked. */
  function AsClaim(w: World, p: nat): Step
    requires IsPolling(w, p)
  {
    var me := w.pollers[p];
    Claim(me.agentId, me.scopes, me.limit, me.now, w.inner.rows.Keys - (set s | s in me.selected))
  }

  /** What a move is in the coarser machine. */
  function Seen(cfg: Config, w: World, m: Move): seq<Step> {
    if m.HandOut? && CanHandOut(w, m.p) then [AsClaim(w, m.p)]
    else if m.Other? && !m.st.Claim? && NeedNotWait(cfg, w, m.st) then [m.st]
    else []
  }

  function AllSeen(cfg: Config, w: World, moves: seq<Move>): seq<Step>
    decreases |moves|
  {
    if moves == [] then []
    else
      var init := moves[..|moves| - 1];
      AllSeen(cfg, w, init) + Seen(cfg, Play(cfg, w, init), moves[|moves| - 1])
  }

  lemma SameElementsSameEmptiness(a: seq<nat>, b: seq<nat>)
    requires forall s :: s in a <==> s in b
    ensures a == [] <==> b == []
  {
    if a != [] {
      assert a[0] in b;
    }
    if b != [] {
      assert b[0] in a;
    }
  }

  lemma {:induction false} AscendingIsUnique(a: seq<nat>, b: seq<nat>)
    requires Ascending(a) && Ascending(b) && forall s :: s in a <==> s in b
    ensures a == b
  {
    SameElementsSameEmptiness(a, b);
    if a != [] {
      var x, y := a[|a| - 1], b[|b| - 1];
      assert x in b && y in a;
      assert x == y;
      var a', b' := a[..|a| - 1], b[..|b| - 1];
      assert a == a' + [x] && b == b' + [y];
      forall s ensures s in a' <==> s in b' {
        assert s in a' ==> s in a && s < x;
        assert s in b' ==> s in b && s < y;
      }
      AscendingIsUnique(a', b');
    }
  }

  lemma {:induction false} AuthorisedAll(rows: Table, scopes: Scope -> bool, ids: seq<nat>)
    requires forall i :: 0 <= i < |ids| ==> MayRead(rows, scopes, ids[i])
    ensures Authorised(rows, scopes, ids) == ids
  {
    if ids != [] {
      AuthorisedAll(rows, scopes, ids[1..]);
      assert ids == [ids[0]] + ids[1..];
    }
  }

  lemma SelectionIsTheClaim(cfg: Config, rows: Table, nextSeq: nat, me: Poller)
    requires WellFormed(rows, nextSeq) && me.Polling? && Fine(cfg, rows, me)
    ensures var locked := rows.Keys - (set s | s in me.selected);
            ClaimIds(rows, nextSeq, PollOf(cfg, me.agentId, me.now), locked, me.scopes, me.limit) == me.selected
  {
    var locked := rows.Keys - (set s | s in me.selected);
    var q := PollOf(cfg, me.agentId, me.now);
    var all := Scan(rows, q, locked, 0, nextSeq);
    ScanIsCompleteAndAscending(rows, q, locked, 0, nextSeq);
    forall s ensures s in all <==> s in me.selected {
      if s in me.selected {
        assert s in me.held && Claimable(rows, q, locked, s);
      }
    }
    AscendingIsUnique(all, me.selected);
    AuthorisedAll(rows, me.scopes, me.selected);
  }

  lemma HandOutIsAClaim(cfg: Config, w: World, p: nat)
    requires WellFormed(w.inner.rows, w.inner.nextSeq) && AllFine(cfg, w) && CanHandOut(w, p)
    ensures Do(cfg, w, HandOut(p)).inner == Apply(cfg, w.inner, AsClaim(w, p))
  {
    SelectionIsTheClaim(cfg, w.inner.rows, w.inner.nextSeq, w.pollers[p]);
  }

  lemma RunOfSingle(cfg: Config, x: State, st: Step)
    ensures Run(cfg, x, [st]) == Apply(cfg, x, st)
  {
    RunOfOne(cfg, x, [], st);
    assert [] + [st] == [st];
  }

  lemma MoveIsSeen(cfg: Config, w: World, m: Move)
    requires WellFormed(w.inner.rows, w.inner.nextSeq) && AllFine(cfg, w)
    ensures Do(cfg, w, m).inner == Run(cfg, w.inner, Seen(cfg, w, m))
  {
    if m.HandOut? && CanHandOut(w, m.p) {
      HandOutIsAClaim(cfg, w, m.p);
      RunOfSingle(cfg, w.inner, AsClaim(w, m.p));
    } else if m.Other? && !m.st.Claim? && NeedNotWait(cfg, w, m.st) {
      RunOfSingle(cfg, w.inner, m.st);
    }
  }

  /**
   * Every run of overlapping polls is a run with single-step claims: the same
   * rows, sequence counter and record sessions, step for step. Meanwhile no row
   * is held by two polls.
   */
  lemma {:induction false} PollsRefineClaims(cfg: Config, sessions: nat, pollers: nat, moves: seq<Move>)
    ensures var w := Start(sessions, pollers);
            && Play(cfg, w, moves).inner == Run(cfg, Init(sessions), AllSeen(cfg, w, moves))
            && AllFine(cfg, Play(cfg, w, moves)) && Disjoint(Play(cfg, w, moves).pollers)
    decreases |moves|
  {
    if moves != [] {
      var w, init, m := Start(sessions, pollers), moves[..|moves| - 1], moves[|moves| - 1];
      var x := Play(cfg, w, init);
      PollsRefineClaims(cfg, sessions, pollers, init);
      InitIsGood(cfg, sessions);
      EveryRunIsGood(cfg, Init(sessions), AllSeen(cfg, w, init));
      MoveKeepsInvariant(cfg, x, m);
      MoveIsSeen(cfg, x, m);
      RunOfConcat(cfg, Init(sessions), AllSeen(cfg, w, init), Seen(cfg, x, m));
    }
  }

  /** Two polls that overlap never select the same row. */
  lemma {:induction false} OverlappingPollsAreDisjoint(
    cfg: Config, sessions: nat, pollers: nat, moves: seq<Move>, p: nat, q: nat)
    requires var w := Play(cfg, Start(sessions, pollers), moves); IsPolling(w, p) && IsPolling(w, q) && p != q
    ensures var w := Play(cfg, Start(sessions, pollers), moves);
            forall s :: s in w.pollers[p].selected ==> s !in w.pollers[q].selected
  {
    PollsRefineClaims(cfg, sessions, pollers, moves);
  }

  // -------------------------------------------------------------- what is handed out

  /** The poll times at which row `s` was handed out. */
  function Handouts(cfg: Config, w: World, moves: seq<Move>, s: nat): seq<int>
    decreases |moves|
  {
    if moves == [] then []
    else
      var init, m := moves[..|moves| - 1], moves[|moves| - 1];
      Handouts(cfg, w, init, s) + HandedBy(Play(cfg, w, init), m, s)
  }

  function HandedBy(w: World, m: Move, s: nat): seq<int> {
    if m.HandOut? && CanHandOut(w, m.p) && s in w.pollers[m.p].selected then [w.pollers[m.p].now] else []
  }

  function DeliveryTimes(h: seq<Event>): seq<int> {
    if h == [] then []
    else DeliveryTimes(h[..|h| - 1]) + (if h[|h| - 1].Delivered? then [h[|h| - 1].at] else [])
  }

  lemma {:induction false} TimesComeFromHistory(h: seq<Event>, k: nat)
    requires k < |DeliveryTimes(h)|
    ensures exists i :: 0 <= i < |h| && h[i] == Delivered(DeliveryTimes(h)[k])
  {
    var init := h[..|h| - 1];
    if k < |DeliveryTimes(init)| {
      TimesComeFromHistory(init, k);
      var i :| 0 <= i < |init| && init[i] == Delivered(DeliveryTimes(init)[k]);
      assert h[i] == Delivered(DeliveryTimes(h)[k]);
    } else {
      assert h[|h| - 1] == Delivered(DeliveryTimes(h)[k]);
    }
  }

  ghost predicate SpacedOut(times: seq<int>, gap: int) {
    forall i, j :: 0 <= i < j < |times| ==> times[j] - times[i] >= gap
  }

  ghost predicate EventsSpacedOut(h: seq<Event>, gap: int) {
    forall i, j :: 0 <= i < j < |h| && h[i].Delivered? && h[j].Delivered? ==> h[j].at - h[i].at >= gap
  }

  lemma {:induction false} TimesAreSpacedOut(h: seq<Event>, gap: int)
    requires EventsSpacedOut(h, gap)
    ensures |DeliveryTimes(h)| == Deliveries(h) && SpacedOut(DeliveryTimes(h), gap)
  {
    if h != [] {
      var init, last := h[..|h| - 1], h[|h| - 1];
      assert EventsSpacedOut(init, gap);
      TimesAreSpacedOut(init, gap);
      if last.Delivered? {
        var times := DeliveryTimes(init);
        forall i | 0 <= i < |times| ensures last.at - times[i] >= gap {
          TimesComeFromHistory(init, i);
          var j :| 0 <= j < |init| && init[j] == Delivered(times[i]);
          assert h[j] == Delivered(times[i]);
        }
      }
    }
  }

  lemma TimesOfOneMore(h: seq<Event>, e: seq<Event>)
    requires |e| <= 1
    ensures DeliveryTimes(h + e) == DeliveryTimes(h) + DeliveryTimes(e)
  {
    if e == [] {
      assert h + e == h;
    } else {
      assert (h + e)[..|h|] == h && e[..0] == [];
    }
  }

  lemma MoveHandsOut(cfg: Config, sessions: nat, steps: seq<Step>, w: World, m: Move, s: nat)
    requires w.inner == Run(cfg, Init(sessions), steps) && AllFine(cfg, w)
    ensures var seen := Seen(cfg, w, m);
            HandedBy(w, m, s) == if seen == [] then [] else DeliveryTimes(EventsOf(cfg, w.inner, seen[0], s))
  {
    if m.HandOut? && CanHandOut(w, m.p) {
      InitIsGood(cfg, sessions);
      EveryRunIsGood(cfg, Init(sessions), steps);
      SelectionIsTheClaim(cfg, w.inner.rows, w.inner.nextSeq, w.pollers[m.p]);
      HandedOutExactly(cfg, sessions, steps, AsClaim(w, m.p), s);
    }
  }

  /** The delivery times after at most one more step. */
  lemma TimesAfter(cfg: Config, x: State, steps: seq<Step>, seen: seq<Step>, s: nat)
    requires |seen| <= 1
    ensures DeliveryTimes(History(cfg, x, steps + seen, s)) == DeliveryTimes(History(cfg, x, steps, s))
              + if seen == [] then [] else DeliveryTimes(EventsOf(cfg, Run(cfg, x, steps), seen[0], s))
  {
    if seen == [] {
      assert steps + seen == steps;
    } else {
      HistoryOfOne(cfg, x, steps, seen[0], s);
      TimesOfOneMore(History(cfg, x, steps, s), EventsOf(cfg, Run(cfg, x, steps), seen[0], s));
      assert seen == [seen[0]];
    }
  }

  lemma {:induction false} HandoutsAreDeliveries(cfg: Config, sessions: nat, pollers: nat, moves: seq<Move>, s: nat)
    ensures var w := Start(sessions, pollers);
            Handouts(cfg, w, moves, s) == DeliveryTimes(History(cfg, Init(sessions), AllSeen(cfg, w, moves), s))
    decreases |moves|
  {
    if moves != [] {
      var w, init, m := Start(sessions, pollers), moves[..|moves| - 1], moves[|moves| - 1];
      var x, steps := Play(cfg, w, init), AllSeen(cfg, w, init);
      HandoutsAreDeliveries(cfg, sessions, pollers, init, s);
      PollsRefineClaims(cfg, sessions, pollers, init);
      MoveHandsOut(cfg, sessions, steps, x, m, s);
      TimesAfter(cfg, Init(sessions), steps, Seen(cfg, x, m), s);
    }
  }

  lemma HistoryOfOne(cfg: Config, x: State, steps: seq<Step>, st: Step, s: nat)
    ensures History(cfg, x, steps + [st], s) == History(cfg, x, steps, s) + EventsOf(cfg, Run(cfg, x, steps), st, s)
  {
    assert (steps + [st])[..|steps|] == steps;
  }

  /**
   * However polls overlap, a command is handed out at most `maxAttempts` times,
   * and any two polls it was handed to are at least the redelivery window apart,
   * so of two polls inside one window at most one gets it.
   */
  lemma {:induction false} NeverHandedOutTwiceInAWindow(
    cfg: Config, sessions: nat, pollers: nat, moves: seq<Move>, s: nat)
    ensures var times := Handouts(cfg, Start(sessions, pollers), moves, s);
            |times| <= cfg.maxAttempts && SpacedOut(times, cfg.redeliveryAfter)
  {
    var steps := AllSeen(cfg, Start(sessions, pollers), moves);
    HandoutsAreDeliveries(cfg, sessions, pollers, moves, s);
    DeliverySafety(cfg, sessions, steps, s);
    TimesAreSpacedOut(History(cfg, Init(sessions), steps, s), cfg.redeliveryAfter);
  }

  // ------------------------------------------------------------ nothing is left out

  /** Another transaction waits only for a poll that holds a row it would change or remove. */
  lemma OthersWaitOnlyForHeldRows(cfg: Config, w: World, st: Step)
    requires !st.Claim?
    ensures || Do(cfg, w, Other(st)).inner == Apply(cfg, w.inner, st)
            || exists p, s :: 0 <= p < |w.pollers| && w.pollers[p].Polling? && s in w.pollers[p].held
                              && s in w.inner.rows
                              && !(s in Apply(cfg, w.inner, st).rows
                                   && Apply(cfg, w.inner, st).rows[s] == w.inner.rows[s])
  {
  }

  /** Nothing stands in the way of handing row `s` to poll `p` right now. */
  ghost predicate Available(cfg: Config, w: World, p: nat, s: nat) {
    && IsPolling(w, p) && s in w.inner.rows && 0 < s < w.inner.nextSeq
    && Eligible(w.inner.rows[s], PollOf(cfg, w.pollers[p].agentId, w.pollers[p].now))
    && MayRead(w.inner.rows, w.pollers[p].scopes, s)
    && (forall q :: 0 <= q < |w.pollers| && q != p && w.pollers[q].Polling? ==> s !in w.pollers[q].held)
  }

  /** The poll goes on, and does not skip the row. */
  predicate GoesOn(m: Move, p: nat, s: nat) {
    match m
    case StartPoll(q, _, _, _, _) => q != p
    case ReadBatch(q, skipped, _) => q == p ==> s !in skipped
    case HandOut(q) => q != p
    case GiveUp(q) => q != p
    case Other(_) => true
  }

  /** The poll has the row, or is full of earlier ones. */
  ghost predicate HasOrFull(me: Poller, s: nat)
    requires me.Polling?
  {
    s in me.selected || (|me.selected| == me.limit && forall i :: 0 <= i < |me.selected| ==> me.selected[i] < s)
  }

  /** As far as the poll has read, it has not left the row out. */
  ghost predicate Covered(me: Poller, s: nat) {
    me.Polling? && (s <= me.cursor || !me.more ==> HasOrFull(me, s))
  }

  lemma TakeKeepsTheFirst(a: seq<nat>, n: nat, s: nat)
    requires Ascending(a) && s in a
    ensures s in Take(a, n) || (|Take(a, n)| == n && forall i :: 0 <= i < n ==> Take(a, n)[i] < s)
  {
    var k :| 0 <= k < |a| && a[k] == s;
    if k < n {
      assert Take(a, n)[k] == s;
    }
  }

  /** A row that one read could take is in its batch, or the batch is full of earlier ones. */
  lemma BatchTakesTheFirst(cfg: Config, w: World, p: nat, skipped: set<nat>, batchSize: nat, s: nat)
    requires AllFine(cfg, w) && Available(cfg, w, p, s) && s !in skipped && w.pollers[p].cursor < s
    ensures var batch := BatchOf(cfg, w, w.pollers[p], skipped, batchSize);
            s in batch || (|batch| == batchSize && forall i :: 0 <= i < |batch| ==> batch[i] < s)
  {
    var me := w.pollers[p];
    var q := PollOf(cfg, me.agentId, me.now);
    var all := Scan(w.inner.rows, q, skipped + HeldRows(w), me.cursor, w.inner.nextSeq);
    ScanIsCompleteAndAscending(w.inner.rows, q, skipped + HeldRows(w), me.cursor, w.inner.nextSeq);
    assert s !in HeldRows(w) by {
      assert Fine(cfg, w.inner.rows, me);
    }
    assert Claimable(w.inner.rows, q, skipped + HeldRows(w), s);
    TakeKeepsTheFirst(all, batchSize, s);
  }

  lemma ReadCovers(cfg: Config, rows: Table, me: Poller, batch: seq<nat>, batchSize: nat, s: nat)
    requires me.Polling? && Fine(cfg, rows, me) && Covered(me, s) && |me.selected| < me.limit
    requires Ascending(batch) && (forall i :: 0 <= i < |batch| ==> me.cursor < batch[i])
    requires MayRead(rows, me.scopes, s) && 0 < batchSize
    requires me.cursor < s ==> s in batch || (|batch| == batchSize && forall i :: 0 <= i < |batch| ==> batch[i] < s)
    ensures Covered(AfterBatch(rows, me, batch, batchSize), s)
  {
    var more := Authorised(rows, me.scopes, batch);
    var all := me.selected + more;
    if s <= me.cursor {
      var k :| 0 <= k < |me.selected| && me.selected[k] == s;
      assert Take(all, me.limit)[k] == s;
    } else if s in batch {
      AuthorisedInOrder(rows, me.scopes, batch);
      var j :| 0 <= j < |batch| && batch[j] == s;
      AuthorisedKeeps(rows, me.scopes, batch, j);
      forall i | 0 <= i < |more| ensures me.cursor < more[i] {
        assert more[i] in batch;
      }
      AscendingConcat(me.selected, more, me.cursor);
      TakeKeepsTheFirst(all, me.limit, s);
    }
  }

  lemma MoveCovers(cfg: Config, w: World, m: Move, p: nat, s: nat)
    requires AllFine(cfg, w) && Available(cfg, w, p, s) && Covered(w.pollers[p], s) && GoesOn(m, p, s)
    ensures IsPolling(Do(cfg, w, m), p) && Covered(Do(cfg, w, m).pollers[p], s)
  {
    if m.ReadBatch? && m.p == p && CanRead(w, p) && m.batchSize != 0 {
      BatchIsNew(cfg, w, w.pollers[p], m.skipped, m.batchSize);
      if w.pollers[p].cursor < s {
        BatchTakesTheFirst(cfg, w, p, m.skipped, m.batchSize, s);
      }
      var batch := BatchOf(cfg, w, w.pollers[p], m.skipped, m.batchSize);
      ReadCovers(cfg, w.inner.rows, w.pollers[p], batch, m.batchSize, s);
    }
  }

  lemma {:induction false} PollCovers(cfg: Config, w: World, moves: seq<Move>, p: nat, s: nat)
    requires AllFine(cfg, w) && Disjoint(w.pollers) && IsPolling(w, p) && Covered(w.pollers[p], s)
    requires forall k :: 0 <= k < |moves| ==> Available(cfg, Play(cfg, w, moves[..k]), p, s) && GoesOn(moves[k], p, s)
    ensures var y := Play(cfg, w, moves);
            AllFine(cfg, y) && Disjoint(y.pollers) && IsPolling(y, p) && Covered(y.pollers[p], s)
    decreases |moves|
  {
    if moves != [] {
      var n := |moves| - 1;
      var init := moves[..n];
      forall k | 0 <= k < |init| ensures Available(cfg, Play(cfg, w, init[..k]), p, s) && GoesOn(init[k], p, s) {
        assert init[..k] == moves[..k];
      }
      PollCovers(cfg, w, init, p, s);
      assert Available(cfg, Play(cfg, w, init), p, s);
      MoveCovers(cfg, Play(cfg, w, init), moves[n], p, s);
      MoveKeepsInvariant(cfg, Play(cfg, w, init), moves[n]);
    }
  }

  /** The poll has just begun. */
  predicate JustStarted(w: World, p: nat) {
    IsPolling(w, p) && w.pollers[p].cursor == 0 && w.pollers[p].selected == [] && w.pollers[p].more
  }

  /**
   * However polls overlap, a row that stays available to a poll from its start
   * until it is ready to hand out is among the rows it hands out, unless the poll
   * is full of earlier ones.
   */
  lemma {:induction false} PollTakesTheFirst(
    cfg: Config, sessions: nat, pollers: nat, before: seq<Move>, moves: seq<Move>, p: nat, s: nat)
    requires JustStarted(Play(cfg, Start(sessions, pollers), before), p)
    requires var w := Play(cfg, Start(sessions, pollers), before);
             && s != 0 && CanHandOut(Play(cfg, w, moves), p)
             && (forall k :: 0 <= k < |moves| ==>
                   Available(cfg, Play(cfg, w, moves[..k]), p, s) && GoesOn(moves[k], p, s))
    ensures var y := Play(cfg, Play(cfg, Start(sessions, pollers), before), moves);
            HasOrFull(y.pollers[p], s)
  {
    var w := Play(cfg, Start(sessions, pollers), before);
    PollsRefineClaims(cfg, sessions, pollers, before);
    PollCovers(cfg, w, moves, p, s);
    var me := Play(cfg, w, moves).pollers[p];
    assert Fine(cfg, Play(cfg, w, moves).inner.rows, me);
  }
}
