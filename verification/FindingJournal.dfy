/** The journal in the order it was written, findings and status changes mixed, read back after a restart. */
module FindingJournal {
  import opened Common
  import opened Findings
  import opened FindingModel
  import opened FindingHistory
  import opened FindingReplay

  datatype Record = FindingRecord(f: Finding) | StatusRecord(u: Update)

  /** What one accepted call writes; a refused call, or a repeated finding, writes nothing. */
  function Written(before: Store, after: Store): seq<Record> {
    if |before.findings| < |after.findings| then [FindingRecord(after.findings[|after.findings| - 1])]
    else if |before.updates| < |after.updates| then [StatusRecord(after.updates[|after.updates| - 1])]
    else []
  }

  function JournalOf(check: Finding -> bool, s: Store, ops: seq<Op>): seq<Record>
    decreases |ops|
  {
    if ops == [] then []
    else
      var init := ops[..|ops| - 1];
      JournalOf(check, s, init) + Written(RunOps(check, s, init), RunOps(check, s, ops))
  }

  /** One journal line read back at clock `at`; a refusal stops the restart. */
  function ReadBack(check: Finding -> bool, s: Store, record: Record, at: nat): Option<Store> {
    match record
    case FindingRecord(f) =>
      if AppendResult(s, f, check(f)).Ok? then Some(AppendStore(s, f, check(f))) else None
    case StatusRecord(u) =>
      if ReplayResult(s, RecordOf(u, at)).Ok? then Some(ReplayStore(s, RecordOf(u, at))) else None
  }

  function Restarted(check: Finding -> bool, s: Store, journal: seq<Record>, clock: nat -> nat): Option<Store>
    decreases |journal|
  {
    if journal == [] then Some(s)
    else
      var n := |journal| - 1;
      var before := Restarted(check, s, journal[..n], clock);
      if before.None? then None else ReadBack(check, before.value, journal[n], clock(n))
  }

  /** The same store apart from the time stamps of its log. */
  ghost predicate Alike(s: Store, r: Store) {
    r == s.(updates := r.updates) && SameLog(r.updates, s.updates)
  }

  lemma AppendsAlike(check: Finding -> bool, s: Store, r: Store, f: Finding)
    requires Alike(s, r)
    ensures AppendResult(r, f, check(f)) == AppendResult(s, f, check(f))
    ensures Alike(AppendStore(s, f, check(f)), AppendStore(r, f, check(f)))
  {
  }

  lemma ChangesAlike(s: Store, r: Store, c: Change, at: nat)
    requires Alike(s, r) && ReplayResult(s, c).Ok? && c.now.Some?
    ensures var record := RecordOf(Logged(c, c.now.value), at);
            ReplayResult(r, record).Ok? && Alike(ReplayStore(s, c), ReplayStore(r, record))
  {
    SameLogSameStatus(r.updates, s.updates, c.findingId);
  }

  /** Reading back what a call wrote keeps the two stores alike; a call that wrote nothing changed nothing. */
  lemma StepIsReadBack(check: Finding -> bool, s: Store, op: Op, r: Store, at: nat)
    requires Alike(s, r)
    ensures var t := ApplyOp(check, s, op);
            var w := Written(s, t);
            if w == [] then t == s
            else |w| == 1 && ReadBack(check, r, w[0], at).Some? && Alike(t, ReadBack(check, r, w[0], at).value)
  {
    match op
    case AppendOp(f) =>
      AppendsAlike(check, s, r, f);
    case ReplayOp(c) =>
      if ReplayResult(s, c).Ok? && c.now.Some? {
        ChangesAlike(s, r, c, at);
      }
    case TransitionOp(c, subject, allows) =>
      if subject.Some? {
        var d := c.(actorSubject := subject.value);
        if ReplayResult(s, d).Ok? && d.now.Some? {
          ChangesAlike(s, r, d, at);
        }
      }
  }

  /** A restart on the journal of any run accepts every line and ends up with the store, time stamps aside. */
  lemma {:induction false} RestartRestoresTheStore(check: Finding -> bool, s: Store, ops: seq<Op>, clock: nat -> nat)
    ensures var r := Restarted(check, s, JournalOf(check, s, ops), clock);
            r.Some? && Alike(RunOps(check, s, ops), r.value)
    decreases |ops|
  {
    if ops != [] {
      var init := ops[..|ops| - 1];
      RestartRestoresTheStore(check, s, init, clock);
      var journal := JournalOf(check, s, init);
      var before := Restarted(check, s, journal, clock).value;
      var w := Written(RunOps(check, s, init), RunOps(check, s, ops));
      StepIsReadBack(check, RunOps(check, s, init), ops[|ops| - 1], before, clock(|journal|));
      if w == [] {
        assert journal + w == journal;
      } else {
        assert (journal + w)[..|journal|] == journal;
      }
    }
  }
}
