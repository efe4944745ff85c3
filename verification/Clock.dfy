/** The anchored clock: one wall reading, then monotonic time, in checked integers. */
module Clock {
  import opened Common

  const NS_PER_US: nat := 1_000
  const U128_LIMIT: nat := 0x1_0000_0000_0000_0000_0000_0000_0000_0000

  type U128 = n: int | 0 <= n < U128_LIMIT

  datatype ClockError =
    | MonotonicBackwards
    | Overflow
    | InvalidMetadata
    | BeforeUnixEpoch
    | Poisoned
    | SourceUnavailable

  /** One wall reading with the error its source declares. */
  datatype Wall = Wall(unixNs: U128, resolutionNs: U64, uncertaintyNs: Option<U128>)

  /** What construction fixes for good, and the first value a sample may have. */
  datatype Anchor = Anchor(
    anchorNs: U64, unixNs: U128, resolutionNs: U64, uncertaintyNs: Option<U128>, afterNs: U64)

  datatype Snapshot = Snapshot(monotonicNs: U64, unixUs: U64, resolutionNs: U64, uncertaintyUs: Option<U64>)

  /** A reading of the source, or the failure it reported. */
  type Reading = Result<U128, ClockError>

  function NarrowU64(n: U128): Result<U64, ClockError> {
    if n < U64_LIMIT then Ok(n) else Err(Overflow)
  }

  function AddU128(a: U128, b: U128): Result<U128, ClockError> {
    if a + b < U128_LIMIT then Ok(a + b) else Err(Overflow)
  }

  /** Rounded up, so that no discarded nanosecond goes unaccounted for. */
  function CeilMicroseconds(ns: U128): (r: Result<U64, ClockError>)
    ensures r.Ok? ==> r.value * NS_PER_US - NS_PER_US < ns <= r.value * NS_PER_US
    ensures r.Err? ==> ns > (U64_LIMIT - 1) * NS_PER_US
  {
    NarrowU64(ns / NS_PER_US + (if ns % NS_PER_US == 0 then 0 else 1))
  }

  function DurationNs(start: U128, end: U128): (r: Result<U64, ClockError>)
    ensures r.Ok? ==> end == start + r.value
    ensures r == Err(MonotonicBackwards) <==> end < start
    ensures r == Err(Overflow) <==> end - start >= U64_LIMIT
  {
    if end < start then Err(MonotonicBackwards) else NarrowU64(end - start)
  }

  /** Subtract first, divide, then narrow: the inputs need not fit 64 bits. */
  function DurationUs(start: U128, end: U128): (r: Result<U64, ClockError>)
    ensures r.Ok? ==> start + r.value * NS_PER_US <= end < start + r.value * NS_PER_US + NS_PER_US
    ensures r == Err(MonotonicBackwards) <==> end < start
    ensures r == Err(Overflow) <==> end - start >= U64_LIMIT * NS_PER_US
  {
    if end < start then Err(MonotonicBackwards) else NarrowU64((end - start) / NS_PER_US)
  }

  function Max(a: int, b: int): int {
    if a >= b then a else b
  }

  /** The part of construction after the three readings. */
  function AnchorAt(before: U64, wall: Wall, after: U64): (r: Result<Anchor, ClockError>)
    ensures r.Ok? ==>
      && before <= r.value.anchorNs <= after
      && r.value.afterNs == after
      && r.value.unixNs == wall.unixNs && r.value.resolutionNs == wall.resolutionNs
      && (r.value.uncertaintyNs.Some? <==> wall.uncertaintyNs.Some?)
      && (wall.uncertaintyNs.Some? ==>
            var radius := r.value.uncertaintyNs.value - wall.uncertaintyNs.value;
            radius == Max(after - r.value.anchorNs, r.value.anchorNs - before))
  {
    if after < before then Err(MonotonicBackwards)
    else if wall.resolutionNs == 0 then Err(InvalidMetadata)
    else if wall.unixNs / NS_PER_US >= U64_LIMIT then Err(Overflow)
    else
      var window := after - before;
      var anchor := before + window / 2;
      var radius := window / 2 + window % 2;
      match wall.uncertaintyNs
      case None => Ok(Anchor(anchor, wall.unixNs, wall.resolutionNs, None, after))
      case Some(ns) =>
        if ns + radius >= U128_LIMIT || CeilMicroseconds(ns + radius).Err? then Err(Overflow)
        else Ok(Anchor(anchor, wall.unixNs, wall.resolutionNs, Some(ns + radius), after))
  }

  /** `before -> wall -> after`, in that order; the first failure wins. */
  function WithSource(labelOk: bool, before: Reading, wall: Result<Wall, ClockError>, after: Reading)
    : Result<Anchor, ClockError>
  {
    if !labelOk then Err(InvalidMetadata)
    else if before.Err? then Err(before.error)
    else if NarrowU64(before.value).Err? then Err(Overflow)
    else if wall.Err? then Err(wall.error)
    else if after.Err? then Err(after.error)
    else if NarrowU64(after.value).Err? then Err(Overflow)
    else AnchorAt(before.value, wall.value, after.value)
  }

  /** No anchor has a smaller radius: the two ends of the bracket are at least twice that apart, up to one. */
  lemma RadiusIsSmallest(before: U64, wall: Wall, after: U64, anchor: int)
    requires AnchorAt(before, wall, after).Ok? && wall.uncertaintyNs.Some?
    ensures var a := AnchorAt(before, wall, after).value;
            a.uncertaintyNs.value - wall.uncertaintyNs.value <= Max(after - anchor, anchor - before)
  {
  }

  /** Exactly which bracketed wall readings make an anchor. */
  lemma AnchoredExactly(before: U64, wall: Wall, after: U64)
    ensures AnchorAt(before, wall, after).Ok? <==>
            && before <= after && 0 < wall.resolutionNs && wall.unixNs < U64_LIMIT * 1_000
            && (wall.uncertaintyNs.Some? ==>
                  wall.uncertaintyNs.value + (after - before + 1) / 2 <= (U64_LIMIT - 1) * 1_000)
    ensures AnchorAt(before, wall, after) == Err(MonotonicBackwards) <==> after < before
    ensures AnchorAt(before, wall, after) == Err(InvalidMetadata) <==> before <= after && wall.resolutionNs == 0
  {
    if before <= after {
      assert (after - before) / 2 + (after - before) % 2 == (after - before + 1) / 2;
    }
  }

  /** Of several failing readings the first one decides, and a bad label comes before all of them. */
  lemma FirstFailureDecides(labelOk: bool, before: Reading, wall: Result<Wall, ClockError>, after: Reading)
    ensures var r := WithSource(labelOk, before, wall, after);
            && (!labelOk ==> r == Err(InvalidMetadata))
            && (labelOk && before.Err? ==> r == Err(before.error))
            && (labelOk && before.Ok? && before.value >= U64_LIMIT ==> r == Err(Overflow))
            && (labelOk && before.Ok? && before.value < U64_LIMIT && wall.Err? ==> r == Err(wall.error))
            && (labelOk && before.Ok? && before.value < U64_LIMIT && wall.Ok? && after.Err? ==> r == Err(after.error))
            && (labelOk && before.Ok? && before.value < U64_LIMIT && wall.Ok? && after.Ok? ==>
                  r == if after.value >= U64_LIMIT then Err(Overflow)
                       else AnchorAt(before.value, wall.value, after.value))
  {
  }

  /** What one sample maps to, given the last accepted one. */
  function Sample(a: Anchor, last: U64, reading: Reading): (r: Result<Snapshot, ClockError>) {
    if reading.Err? then Err(reading.error)
    else if reading.value >= U64_LIMIT then Err(Overflow)
    else if reading.value < last || reading.value < a.anchorNs then Err(MonotonicBackwards)
    else
      var unix := a.unixNs + (reading.value - a.anchorNs);
      if unix >= U128_LIMIT || unix / NS_PER_US >= U64_LIMIT then Err(Overflow)
      else
        match a.uncertaintyNs
        case None => Ok(Snapshot(reading.value, unix / NS_PER_US, a.resolutionNs, None))
        case Some(ns) =>
          if ns + unix % NS_PER_US >= U128_LIMIT then Err(Overflow)
          else if CeilMicroseconds(ns + unix % NS_PER_US).Err? then Err(Overflow)
          else
            Ok(Snapshot(reading.value, unix / NS_PER_US, a.resolutionNs,
                        Some(CeilMicroseconds(ns + unix % NS_PER_US).value)))
  }

  function LastAfter(a: Anchor, last: U64, reading: Reading): U64 {
    if Sample(a, last, reading).Ok? then Sample(a, last, reading).value.monotonicNs else last
  }

  /**
   * Exactly which readings are accepted, and what the snapshot says: Unix time
   * rounded down to a microsecond, and the smallest whole number of microseconds
   * that covers the uncertainty and the part cut off.
   */
  lemma SampledExactly(a: Anchor, last: U64, v: U128)
    ensures var r, unix := Sample(a, last, Ok(v)), a.unixNs + (v - a.anchorNs);
            var cut := unix % 1_000;
            && (r == Err(MonotonicBackwards) <==> v < U64_LIMIT && (v < last || v < a.anchorNs))
            && (r.Ok? <==>
                  && v < U64_LIMIT && last <= v && a.anchorNs <= v && unix < U64_LIMIT * 1_000
                  && (a.uncertaintyNs.Some? ==> a.uncertaintyNs.value + cut <= (U64_LIMIT - 1) * 1_000))
            && (r.Ok? ==>
                  && r.value.monotonicNs == v && r.value.resolutionNs == a.resolutionNs
                  && r.value.unixUs * 1_000 <= unix < r.value.unixUs * 1_000 + 1_000
                  && (r.value.uncertaintyUs.Some? <==> a.uncertaintyNs.Some?)
                  && (a.uncertaintyNs.Some? ==>
                        var us := r.value.uncertaintyUs.value;
                        us * 1_000 - 1_000 < a.uncertaintyNs.value + cut <= us * 1_000))
  {
  }

  /** A reading equal to the one just accepted is accepted again, with the same snapshot. */
  lemma RepeatedReadingIsAccepted(a: Anchor, last: U64, reading: Reading)
    requires Sample(a, last, reading).Ok?
    ensures Sample(a, LastAfter(a, last, reading), reading) == Sample(a, last, reading)
  {
  }

  class AnchoredClock {
    const anchor: Anchor
    var lastNs: U64

    constructor (anchor: Anchor)
      ensures this.anchor == anchor && lastNs == anchor.afterNs
    {
      this.anchor := anchor;
      lastNs := anchor.afterNs;
    }

    /** Reads, validates and maps one sample; a rejected reading changes nothing. */
    method Now(reading: Reading) returns (r: Result<Snapshot, ClockError>)
      modifies this
      ensures r == Sample(anchor, old(lastNs), reading)
      ensures lastNs == LastAfter(anchor, old(lastNs), reading)
      ensures r.Err? ==> lastNs == old(lastNs)
      ensures r.Ok? ==> old(lastNs) <= lastNs == r.value.monotonicNs
    {
      if reading.Err? {
        return Err(reading.error);
      }
      if reading.value >= U64_LIMIT {
        return Err(Overflow);
      }
      var monotonicNs: U64 := reading.value;
      if monotonicNs < lastNs {
        return Err(MonotonicBackwards);
      }
      if monotonicNs < anchor.anchorNs {
        return Err(MonotonicBackwards);
      }
      var sum := AddU128(anchor.unixNs, monotonicNs - anchor.anchorNs);
      if sum.Err? {
        return Err(sum.error);
      }
      var unixNs := sum.value;
      var unixUs := NarrowU64(unixNs / NS_PER_US);
      if unixUs.Err? {
        return Err(unixUs.error);
      }
      var uncertaintyUs: Option<U64> := None;
      if anchor.uncertaintyNs.Some? {
        var total := AddU128(anchor.uncertaintyNs.value, unixNs % NS_PER_US);
        if total.Err? {
          return Err(total.error);
        }
        var ceil := CeilMicroseconds(total.value);
        if ceil.Err? {
          return Err(Overflow);
        }
        uncertaintyUs := Some(ceil.value);
      }
      lastNs := monotonicNs;
      return Ok(Snapshot(monotonicNs, unixUs.value, anchor.resolutionNs, uncertaintyUs));
    }
  }

  // ---------------------------------------------------------- soundness of the bound

  function Abs(x: real): real {
    if x < 0.0 then -x else x
  }

  /**
   * What the source claimed about its wall reading: it was taken at the instant
   * `read` of the monotonic time line, between the two bracket readings, when
   * true Unix time was `read + offset`, and it was off by no more than declared.
   */
  ghost predicate WallReadingHolds(before: U64, wall: Wall, after: U64, read: real, offset: real) {
    && wall.uncertaintyNs.Some?
    && before as real <= read <= after as real
    && Abs(wall.unixNs as real - (read + offset)) <= wall.uncertaintyNs.value as real
  }

  lemma AnchorIsClose(before: U64, wall: Wall, after: U64, a: Anchor, read: real, offset: real)
    requires AnchorAt(before, wall, after) == Ok(a)
    requires WallReadingHolds(before, wall, after, read, offset)
    ensures a.uncertaintyNs.Some?
    ensures Abs(a.unixNs as real - (a.anchorNs as real + offset)) <= a.uncertaintyNs.value as real
  {
    var radius := a.uncertaintyNs.value - wall.uncertaintyNs.value;
    assert Abs(read - a.anchorNs as real) <= radius as real;
  }

  /**
   * Every accepted sample is within its reported uncertainty of true time on a
   * monotonic clock without drift.
   */
  lemma UncertaintyIsSound(
    before: U64, wall: Wall, after: U64, a: Anchor, read: real, offset: real,
    last: U64, reading: Reading, snap: Snapshot)
    requires AnchorAt(before, wall, after) == Ok(a)
    requires WallReadingHolds(before, wall, after, read, offset)
    requires Sample(a, last, reading) == Ok(snap)
    ensures snap.uncertaintyUs.Some?
    ensures Abs((snap.unixUs * NS_PER_US) as real - (snap.monotonicNs as real + offset))
         <= (snap.uncertaintyUs.value * NS_PER_US) as real
  {
    AnchorIsClose(before, wall, after, a, read, offset);
    var unix := a.unixNs + (snap.monotonicNs - a.anchorNs);
    var cut := unix % NS_PER_US;
    assert snap.unixUs * NS_PER_US == unix - cut;
    assert a.uncertaintyNs.value + cut <= snap.uncertaintyUs.value * NS_PER_US;
    assert unix as real - (snap.monotonicNs as real + offset) == a.unixNs as real - (a.anchorNs as real + offset);
  }

  // --------------------------------------------------------------------- runs

  /** Readings fed to one clock, the answers, and the last accepted value around each. */
  datatype Run = Run(readings: seq<Reading>, answers: seq<Result<Snapshot, ClockError>>, lasts: seq<U64>)

  ghost predicate StepOf(a: Anchor, r: Run, i: nat)
    requires i < |r.readings| == |r.answers| == |r.lasts| - 1
  {
    && r.answers[i] == Sample(a, r.lasts[i], r.readings[i])
    && r.lasts[i + 1] == LastAfter(a, r.lasts[i], r.readings[i])
  }

  ghost predicate IsRun(a: Anchor, r: Run) {
    && |r.readings| == |r.answers| == |r.lasts| - 1
    && r.lasts[0] == a.afterNs
    && (forall i: nat :: i < |r.readings| ==> StepOf(a, r, i))
  }

  lemma {:induction false} LastOnlyGrows(a: Anchor, r: Run, i: nat, j: nat)
    requires IsRun(a, r) && i <= j <= |r.readings|
    ensures r.lasts[i] <= r.lasts[j]
    decreases j
  {
    if i < j {
      LastOnlyGrows(a, r, i, j - 1);
      assert StepOf(a, r, j - 1);
    }
  }

  /** Accepted samples never go backwards, in either unit, and never precede the bracket. */
  lemma AcceptedNeverGoBack(a: Anchor, r: Run, i: nat, j: nat)
    requires IsRun(a, r) && i < j < |r.readings| && r.answers[i].Ok? && r.answers[j].Ok?
    ensures a.afterNs <= r.answers[i].value.monotonicNs <= r.answers[j].value.monotonicNs
    ensures r.answers[i].value.unixUs <= r.answers[j].value.unixUs
  {
    assert StepOf(a, r, i);
    assert StepOf(a, r, j);
    LastOnlyGrows(a, r, 0, i);
    LastOnlyGrows(a, r, i + 1, j);
    DivisionIsMonotone(a.unixNs + (r.answers[i].value.monotonicNs - a.anchorNs),
                       a.unixNs + (r.answers[j].value.monotonicNs - a.anchorNs));
  }

  lemma DivisionIsMonotone(m: nat, n: nat)
    requires m <= n
    ensures m / NS_PER_US <= n / NS_PER_US
  {
  }

  /**
   * From construction through any run of readings: when the wall reading holds
   * what its source claimed, every accepted snapshot is within its reported
   * uncertainty of true time.
   */
  lemma EverySnapshotIsSound(
    labelOk: bool, before: Reading, wall: Result<Wall, ClockError>, after: Reading,
    a: Anchor, read: real, offset: real, r: Run, i: nat)
    requires WithSource(labelOk, before, wall, after) == Ok(a)
    requires WallReadingHolds(before.value, wall.value, after.value, read, offset)
    requires IsRun(a, r) && i < |r.readings| && r.answers[i].Ok?
    ensures var snap := r.answers[i].value;
            && snap.uncertaintyUs.Some?
            && Abs((snap.unixUs * NS_PER_US) as real - (snap.monotonicNs as real + offset))
               <= (snap.uncertaintyUs.value * NS_PER_US) as real
  {
    assert StepOf(a, r, i);
    UncertaintyIsSound(before.value, wall.value, after.value, a, read, offset,
                       r.lasts[i], r.readings[i], r.answers[i].value);
  }

  /** The latest accepted reading, or the closing bracket reading before there is one. */
  function LatestAccepted(a: Anchor, r: Run, n: nat): U64
    requires n <= |r.answers|
  {
    if n == 0 then a.afterNs
    else if r.answers[n - 1].Ok? then r.answers[n - 1].value.monotonicNs
    else LatestAccepted(a, r, n - 1)
  }

  lemma {:induction false} LastIsLatestAccepted(a: Anchor, r: Run, n: nat)
    requires IsRun(a, r) && n <= |r.readings|
    ensures r.lasts[n] == LatestAccepted(a, r, n)
    ensures a.afterNs <= r.lasts[n]
  {
    if n > 0 {
      LastIsLatestAccepted(a, r, n - 1);
      assert StepOf(a, r, n - 1);
    }
  }

  /** In every run of a constructed clock, a reading goes backwards exactly when it precedes the latest accepted one. */
  lemma BackwardsExactly(before: U64, wall: Wall, after: U64, a: Anchor, r: Run, i: nat)
    requires AnchorAt(before, wall, after) == Ok(a)
    requires IsRun(a, r) && i < |r.readings| && r.readings[i].Ok?
    ensures r.answers[i] == Err(MonotonicBackwards) <==>
            r.readings[i].value < U64_LIMIT && r.readings[i].value < LatestAccepted(a, r, i)
  {
    assert StepOf(a, r, i);
    LastIsLatestAccepted(a, r, i);
    SampledExactly(a, r.lasts[i], r.readings[i].value);
  }

  /** A rejected reading is as if it had not been taken. */
  lemma RejectedChangesNothing(a: Anchor, r: Run, i: nat)
    requires IsRun(a, r) && i < |r.readings| && r.answers[i].Err?
    ensures r.lasts[i + 1] == r.lasts[i]
  {
    assert StepOf(a, r, i);
  }
}
