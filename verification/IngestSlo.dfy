/**
 Gap accounting and snapshot attribution of the ingest report
 (`analyze_ingest_slo` in backend/scripts/analyze_ingest_slo.py).  Times are minutes.
 */
module IngestSlo {
  import opened Outcomes
  import opened RealAlgebra

  // ---------------------------------------------------------------------------------------
  // Missed cycles
  // ---------------------------------------------------------------------------------------

  datatype GapKind = WindowHead | BetweenCycles | WindowTail | EmptyWindow

  datatype Gap = Gap(kind: GapKind, start: real, end: real, minutes: real, estimatedMissedCycles: nat)

  function EstimatedMissedCycles(gap: real, cadence: real): nat
    requires cadence > 0.0
  {
    var slots := (gap / cadence + 0.5).Floor - 1;
    if slots < 0 then 0 else slots
  }

  predicate SortedWithin(starts: seq<real>, windowStart: real, checkedAt: real) {
    && windowStart <= checkedAt
    && (forall i :: 0 <= i < |starts| ==> windowStart <= starts[i] <= checkedAt)
    && (forall i, j :: 0 <= i < j < |starts| ==> starts[i] <= starts[j])
  }

  /** `record_gap`: an interval shorter than the threshold leaves no record. */
  function RecordGap(kind: GapKind, start: real, end: real, cadence: real, threshold: real): seq<Gap>
    requires cadence > 0.0
  {
    var minutes := if end - start < 0.0 then 0.0 else end - start;
    if minutes < threshold then []
    else [Gap(kind, start, end, minutes, EstimatedMissedCycles(minutes, cadence))]
  }

  /** The records of the intervals between neighbouring starts. */
  function BetweenGaps(starts: seq<real>, cadence: real, threshold: real): seq<Gap>
    requires cadence > 0.0
  {
    if |starts| < 2 then []
    else RecordGap(BetweenCycles, starts[0], starts[1], cadence, threshold)
         + BetweenGaps(starts[1..], cadence, threshold)
  }

  function CadenceGaps(starts: seq<real>, windowStart: real, checkedAt: real, cadence: real, threshold: real): seq<Gap>
    requires cadence > 0.0
  {
    if starts == [] then RecordGap(EmptyWindow, windowStart, checkedAt, cadence, threshold)
    else
      RecordGap(WindowHead, windowStart, starts[0], cadence, threshold)
      + BetweenGaps(starts, cadence, threshold)
      + RecordGap(WindowTail, starts[|starts| - 1], checkedAt, cadence, threshold)
  }

  /** The recording part of the report. */
  method RecordCadenceGaps(starts: seq<real>, windowStart: real, checkedAt: real, cadence: real, gapFactor: real)
    returns (gaps: seq<Gap>)
    requires cadence > 0.0
    ensures gaps == CadenceGaps(starts, windowStart, checkedAt, cadence, cadence * gapFactor)
  {
    var threshold := cadence * gapFactor;
    if starts == [] {
      return RecordGap(EmptyWindow, windowStart, checkedAt, cadence, threshold);
    }
    gaps := RecordGap(WindowHead, windowStart, starts[0], cadence, threshold);
    ghost var head := gaps;
    var i := 0;
    while i + 1 < |starts|
      invariant 0 <= i < |starts|
      invariant gaps + BetweenGaps(starts[i..], cadence, threshold) == head + BetweenGaps(starts, cadence, threshold)
    {
      gaps := gaps + RecordGap(BetweenCycles, starts[i], starts[i + 1], cadence, threshold);
      i := i + 1;
    }
    gaps := gaps + RecordGap(WindowTail, starts[|starts| - 1], checkedAt, cadence, threshold);
  }

  function TotalMissed(gaps: seq<Gap>): nat {
    if gaps == [] then 0 else gaps[0].estimatedMissedCycles + TotalMissed(gaps[1..])
  }

  /** Records that claim at least one missed cycle. */
  function ClaimingGaps(gaps: seq<Gap>): nat {
    if gaps == [] then 0 else (if gaps[0].estimatedMissedCycles > 0 then 1 else 0) + ClaimingGaps(gaps[1..])
  }

  function ExpectedCycleSlots(windowMinutes: real, cadence: real): int
    requires cadence > 0.0
  {
    (windowMinutes / cadence).Floor
  }

  /** The claimed cycles, and half a cycle for each record that claims any. */
  ghost function Claimed(gaps: seq<Gap>): real {
    TotalMissed(gaps) as real + 0.5 * ClaimingGaps(gaps) as real
  }

  /** The records claim no more cycles than fit into the minutes. */
  ghost predicate WithinMinutes(gaps: seq<Gap>, minutes: real, cadence: real) {
    cadence * Claimed(gaps) <= minutes
  }

  lemma EstimateBound(gap: real, cadence: real)
    requires cadence > 0.0 && gap >= 0.0
    ensures var m := EstimatedMissedCycles(gap, cadence);
            cadence * (m as real + 0.5 * (if m > 0 then 1.0 else 0.0)) <= gap
  {
    var q, m := gap / cadence, EstimatedMissedCycles(gap, cadence);
    QuotientTimes(gap, cadence);
    if m > 0 {
      ScaleWeakly(cadence, m as real + 0.5, q);
    } else {
      ZeroFactor(cadence, 0.0);
    }
  }

  lemma RecordWithin(kind: GapKind, start: real, end: real, cadence: real, threshold: real)
    requires cadence > 0.0 && start <= end
    ensures WithinMinutes(RecordGap(kind, start, end, cadence, threshold), end - start, cadence)
  {
    var gaps := RecordGap(kind, start, end, cadence, threshold);
    EstimateBound(end - start, cadence);
    ZeroFactor(cadence, 0.0);
    if gaps != [] {
      var m := EstimatedMissedCycles(end - start, cadence);
      hide EstimatedMissedCycles;
      assert gaps == [gaps[0]] && gaps[1..] == [] && gaps[0].estimatedMissedCycles == m;
      assert TotalMissed(gaps) == m && ClaimingGaps(gaps) == if m > 0 then 1 else 0;
    }
  }

  lemma {:induction false} TotalsAdd(a: seq<Gap>, b: seq<Gap>)
    ensures TotalMissed(a + b) == TotalMissed(a) + TotalMissed(b)
    ensures ClaimingGaps(a + b) == ClaimingGaps(a) + ClaimingGaps(b)
    ensures Claimed(a + b) == Claimed(a) + Claimed(b)
  {
    if a == [] {
      assert a + b == b;
    } else {
      assert (a + b)[1..] == a[1..] + b;
      TotalsAdd(a[1..], b);
    }
  }

  lemma WithinAdds(a: seq<Gap>, x: real, b: seq<Gap>, y: real, cadence: real)
    requires WithinMinutes(a, x, cadence) && WithinMinutes(b, y, cadence)
    ensures WithinMinutes(a + b, x + y, cadence)
  {
    hide TotalMissed, ClaimingGaps;
    TotalsAdd(a, b);
    hide Claimed;
    Distribute(cadence, Claimed(a), Claimed(b));
  }

  lemma {:induction false} BetweenWithin(starts: seq<real>, cadence: real, threshold: real)
    requires cadence > 0.0 && starts != []
    requires forall i, j :: 0 <= i < j < |starts| ==> starts[i] <= starts[j]
    ensures WithinMinutes(BetweenGaps(starts, cadence, threshold), starts[|starts| - 1] - starts[0], cadence)
  {
    hide WithinMinutes, RecordGap;
    if |starts| == 1 {
      assert WithinMinutes([], 0.0, cadence) by { NothingWithin(cadence); }
    } else {
      RecordWithin(BetweenCycles, starts[0], starts[1], cadence, threshold);
      BetweenWithin(starts[1..], cadence, threshold);
      WithinAdds(RecordGap(BetweenCycles, starts[0], starts[1], cadence, threshold), starts[1] - starts[0],
                 BetweenGaps(starts[1..], cadence, threshold), starts[|starts| - 1] - starts[1], cadence);
    }
  }

  lemma NothingWithin(cadence: real)
    ensures WithinMinutes([], 0.0, cadence)
  {
    ZeroFactor(cadence, 0.0);
  }

  /** Head, between and tail intervals tile the window, so all records together stay within it. */
  lemma AllGapsWithinWindow(starts: seq<real>, windowStart: real, checkedAt: real, cadence: real, threshold: real)
    requires cadence > 0.0 && SortedWithin(starts, windowStart, checkedAt)
    ensures WithinMinutes(CadenceGaps(starts, windowStart, checkedAt, cadence, threshold),
                          checkedAt - windowStart, cadence)
  {
    hide WithinMinutes, RecordGap, BetweenGaps;
    if starts == [] {
      RecordWithin(EmptyWindow, windowStart, checkedAt, cadence, threshold);
    } else {
      var first, last := starts[0], starts[|starts| - 1];
      var head := RecordGap(WindowHead, windowStart, first, cadence, threshold);
      RecordWithin(WindowHead, windowStart, first, cadence, threshold);
      BetweenWithin(starts, cadence, threshold);
      RecordWithin(WindowTail, last, checkedAt, cadence, threshold);
      WithinAdds(head, first - windowStart, BetweenGaps(starts, cadence, threshold), last - first, cadence);
      WithinAdds(head + BetweenGaps(starts, cadence, threshold), last - windowStart,
                 RecordGap(WindowTail, last, checkedAt, cadence, threshold), checkedAt - last, cadence);
    }
  }

  /**
   The estimates never add up to more than the cycles the window has room for, and each
   record that claims a missed cycle leaves half a cycle unclaimed.
   */
  lemma MissedCyclesFitWindow(starts: seq<real>, windowStart: real, checkedAt: real, cadence: real, threshold: real)
    requires cadence > 0.0 && SortedWithin(starts, windowStart, checkedAt)
    ensures var gaps := CadenceGaps(starts, windowStart, checkedAt, cadence, threshold);
            var slots := (checkedAt - windowStart) / cadence;
            && Claimed(gaps) <= slots
            && TotalMissed(gaps) <= ExpectedCycleSlots(checkedAt - windowStart, cadence)
  {
    hide CadenceGaps, TotalMissed, ClaimingGaps, SortedWithin;
    var gaps := CadenceGaps(starts, windowStart, checkedAt, cadence, threshold);
    var slots := (checkedAt - windowStart) / cadence;
    AllGapsWithinWindow(starts, windowStart, checkedAt, cadence, threshold);
    QuotientTimes(checkedAt - windowStart, cadence);
    if slots < Claimed(gaps) { ScaleUp(cadence, slots, Claimed(gaps)); }
  }

  // ---------------------------------------------------------------------------------------
  // Which intervals leave a record
  // ---------------------------------------------------------------------------------------

  /** The window start, the cycle starts and the moment of the check. */
  function Bounds(starts: seq<real>, windowStart: real, checkedAt: real): seq<real> {
    [windowStart] + starts + [checkedAt]
  }

  /** What the interval from bound `i` to the next one is called. */
  function KindOf(cycles: nat, i: nat): GapKind {
    if cycles == 0 then EmptyWindow else if i == 0 then WindowHead
    else if i == cycles then WindowTail else BetweenCycles
  }

  /** The record is that of interval `i`, which is as long as the threshold. */
  predicate RecordsInterval(bounds: seq<real>, i: nat, cadence: real, threshold: real, g: Gap)
    requires cadence > 0.0 && i + 1 < |bounds|
  {
    && g.kind == KindOf(|bounds| - 2, i) && g.start == bounds[i] && g.end == bounds[i + 1]
    && g.minutes == g.end - g.start >= threshold
    && g.estimatedMissedCycles == EstimatedMissedCycles(g.minutes, cadence)
  }

  predicate Nondecreasing(bounds: seq<real>) {
    forall i, j :: 0 <= i < j < |bounds| ==> bounds[i] <= bounds[j]
  }

  /** The records of the intervals from bound `i` on. */
  ghost function RecordsFrom(bounds: seq<real>, i: nat, cadence: real, threshold: real): seq<Gap>
    requires cadence > 0.0 && |bounds| >= 2
    decreases |bounds| - i
  {
    if i + 1 >= |bounds| then []
    else RecordGap(KindOf(|bounds| - 2, i), bounds[i], bounds[i + 1], cadence, threshold)
         + RecordsFrom(bounds, i + 1, cadence, threshold)
  }

  lemma {:induction false} BetweenAndTail(
      starts: seq<real>, windowStart: real, checkedAt: real, cadence: real, threshold: real, k: nat)
    requires cadence > 0.0 && k < |starts|
    ensures BetweenGaps(starts[k..], cadence, threshold)
            + RecordGap(WindowTail, starts[|starts| - 1], checkedAt, cadence, threshold)
            == RecordsFrom(Bounds(starts, windowStart, checkedAt), k + 1, cadence, threshold)
    decreases |starts| - k
  {
    hide RecordGap;
    var bounds, tail := Bounds(starts, windowStart, checkedAt),
                        RecordGap(WindowTail, starts[|starts| - 1], checkedAt, cadence, threshold);
    assert bounds[k + 1] == starts[k];
    if k + 1 < |starts| {
      var first := RecordGap(BetweenCycles, starts[k], starts[k + 1], cadence, threshold);
      assert bounds[k + 2] == starts[k + 1] && starts[k..][1..] == starts[k + 1..];
      BetweenAndTail(starts, windowStart, checkedAt, cadence, threshold, k + 1);
      assert (first + BetweenGaps(starts[k + 1..], cadence, threshold)) + tail
          == first + (BetweenGaps(starts[k + 1..], cadence, threshold) + tail);
    } else {
      assert RecordsFrom(bounds, k + 2, cadence, threshold) == [];
    }
  }

  lemma GapsAreRecords(starts: seq<real>, windowStart: real, checkedAt: real, cadence: real, threshold: real)
    requires cadence > 0.0
    ensures CadenceGaps(starts, windowStart, checkedAt, cadence, threshold)
            == RecordsFrom(Bounds(starts, windowStart, checkedAt), 0, cadence, threshold)
  {
    hide RecordGap, BetweenGaps;
    var bounds := Bounds(starts, windowStart, checkedAt);
    if starts == [] {
      assert RecordsFrom(bounds, 1, cadence, threshold) == [];
    } else {
      BetweenAndTail(starts, windowStart, checkedAt, cadence, threshold, 0);
      assert starts[0..] == starts;
      var head := RecordGap(WindowHead, windowStart, starts[0], cadence, threshold);
      var between := BetweenGaps(starts, cadence, threshold);
      var tail := RecordGap(WindowTail, starts[|starts| - 1], checkedAt, cadence, threshold);
      assert (head + between) + tail == head + (between + tail);
    }
  }

  lemma RecordIsOfInterval(bounds: seq<real>, i: nat, cadence: real, threshold: real, g: Gap)
    requires cadence > 0.0 && i + 1 < |bounds| && bounds[i] <= bounds[i + 1]
    ensures g in RecordGap(KindOf(|bounds| - 2, i), bounds[i], bounds[i + 1], cadence, threshold)
            <==> RecordsInterval(bounds, i, cadence, threshold, g)
  {
    hide EstimatedMissedCycles;
  }

  lemma FirstOrLater(bounds: seq<real>, i: nat, cadence: real, threshold: real, g: Gap)
    requires cadence > 0.0 && i + 1 < |bounds|
    ensures (exists k: nat :: i <= k < |bounds| - 1 && RecordsInterval(bounds, k, cadence, threshold, g)) <==>
            || RecordsInterval(bounds, i, cadence, threshold, g)
            || exists k: nat :: i + 1 <= k < |bounds| - 1 && RecordsInterval(bounds, k, cadence, threshold, g)
  {
    hide RecordsInterval;
  }

  lemma {:induction false} RecordsFromMembers(bounds: seq<real>, i: nat, cadence: real, threshold: real, g: Gap)
    requires cadence > 0.0 && |bounds| >= 2 && Nondecreasing(bounds)
    ensures g in RecordsFrom(bounds, i, cadence, threshold) <==>
            exists k: nat :: i <= k < |bounds| - 1 && RecordsInterval(bounds, k, cadence, threshold, g)
    decreases |bounds| - i
  {
    hide RecordGap, RecordsInterval, KindOf, Nondecreasing;
    if i + 1 < |bounds| {
      FirstOrLater(bounds, i, cadence, threshold, g);
      NextBound(bounds, i);
      RecordIsOfInterval(bounds, i, cadence, threshold, g);
      RecordsFromMembers(bounds, i + 1, cadence, threshold, g);
      var first := RecordGap(KindOf(|bounds| - 2, i), bounds[i], bounds[i + 1], cadence, threshold);
      assert g in RecordsFrom(bounds, i, cadence, threshold) <==>
             g in first || g in RecordsFrom(bounds, i + 1, cadence, threshold);
    }
  }

  lemma NextBound(bounds: seq<real>, i: nat)
    requires Nondecreasing(bounds) && i + 1 < |bounds|
    ensures bounds[i] <= bounds[i + 1]
  {
  }

  lemma BoundsAscend(starts: seq<real>, windowStart: real, checkedAt: real)
    requires SortedWithin(starts, windowStart, checkedAt)
    ensures Nondecreasing(Bounds(starts, windowStart, checkedAt))
  {
  }

  /** An interval of the window has its record exactly when it is as long as the threshold. */
  lemma LongIntervalsAreRecorded(
      starts: seq<real>, windowStart: real, checkedAt: real, cadence: real, threshold: real, g: Gap)
    requires cadence > 0.0 && SortedWithin(starts, windowStart, checkedAt)
    ensures var bounds := Bounds(starts, windowStart, checkedAt);
            g in CadenceGaps(starts, windowStart, checkedAt, cadence, threshold) <==>
            exists k: nat :: k < |bounds| - 1 && RecordsInterval(bounds, k, cadence, threshold, g)
  {
    BoundsAscend(starts, windowStart, checkedAt);
    GapsAreRecords(starts, windowStart, checkedAt, cadence, threshold);
    RecordsFromMembers(Bounds(starts, windowStart, checkedAt), 0, cadence, threshold, g);
  }

  ghost predicate InTime(gaps: seq<Gap>, start: real) {
    && (forall a :: 0 <= a < |gaps| ==> start <= gaps[a].start)
    && forall a, b :: 0 <= a < b < |gaps| ==> gaps[a].end <= gaps[b].start
  }

  lemma {:induction false} RecordsFromInTime(bounds: seq<real>, i: nat, cadence: real, threshold: real)
    requires cadence > 0.0 && |bounds| >= 2 && Nondecreasing(bounds) && i < |bounds|
    ensures InTime(RecordsFrom(bounds, i, cadence, threshold), bounds[i])
    decreases |bounds| - i
  {
    hide EstimatedMissedCycles;
    if i + 1 < |bounds| {
      RecordsFromInTime(bounds, i + 1, cadence, threshold);
    }
  }

  /** The records follow one another in time, so a threshold above zero leaves one record for an interval. */
  lemma RecordsFollowInTime(starts: seq<real>, windowStart: real, checkedAt: real, cadence: real, threshold: real)
    requires cadence > 0.0 && SortedWithin(starts, windowStart, checkedAt)
    ensures InTime(CadenceGaps(starts, windowStart, checkedAt, cadence, threshold), windowStart)
  {
    BoundsAscend(starts, windowStart, checkedAt);
    GapsAreRecords(starts, windowStart, checkedAt, cadence, threshold);
    RecordsFromInTime(Bounds(starts, windowStart, checkedAt), 0, cadence, threshold);
  }

  /** A gap nearest to `k` cadences has missed `k - 1` cycles, and one below half a cadence none. */
  lemma EstimateIsNearestSlot(gap: real, cadence: real, k: nat)
    requires cadence > 0.0 && cadence * (k as real - 0.5) <= gap < cadence * (k as real + 0.5)
    ensures EstimatedMissedCycles(gap, cadence) == if k == 0 then 0 else k - 1
  {
    var q := gap / cadence;
    QuotientTimes(gap, cadence);
    if q < k as real - 0.5 { ScaleUp(cadence, q, k as real - 0.5); }
    if k as real + 0.5 <= q { ScaleWeakly(cadence, k as real + 0.5, q); }
    assert k as real <= q + 0.5 < k as real + 1.0;
  }

  /** Between runs within a quarter cadence of slots `a` and `b`, the estimate is the skipped slots. */
  lemma EstimateIsExactUnderJitter(origin: real, cadence: real, a: int, b: int, start: real, end: real)
    requires cadence > 0.0 && a < b
    requires -cadence / 4.0 < start - (origin + cadence * a as real) < cadence / 4.0
    requires -cadence / 4.0 < end - (origin + cadence * b as real) < cadence / 4.0
    ensures EstimatedMissedCycles(end - start, cadence) == b - a - 1
  {
    var k := (b - a) as real;
    var gap := end - start;
    var q := gap / cadence;
    Distribute(cadence, b as real, a as real);
    Distribute(cadence, k, 0.5);
    QuotientBounds(gap, cadence, k - 0.5, k + 0.5);
    assert (q + 0.5).Floor == b - a;
  }

  // ---------------------------------------------------------------------------------------
  // Attribution of snapshots to cycles
  // ---------------------------------------------------------------------------------------

  datatype Cycle = Cycle(id: int, startedAt: real, completedAt: Option<real>)

  function CycleEnd(cycle: Cycle, checkedAt: real): real {
    match cycle.completedAt
    case Some(end) => end
    case None => checkedAt
  }

  /** The rows come ordered by start and then id, so starts do not decrease and ids are unique. */
  ghost predicate OrderedCycles(cycles: seq<Cycle>) {
    && (forall i, j :: 0 <= i < j < |cycles| ==> cycles[i].startedAt <= cycles[j].startedAt)
    && (forall i, j :: 0 <= i < j < |cycles| ==> cycles[i].id != cycles[j].id)
  }

  /** `bisect_right` on the starts: how many of them are not later than `t`. */
  function BisectRight(cycles: seq<Cycle>, t: real): (index: nat)
    ensures index <= |cycles|
  {
    if cycles == [] || t < cycles[0].startedAt then 0 else 1 + BisectRight(cycles[1..], t)
  }

  lemma {:induction false} BisectSplits(cycles: seq<Cycle>, t: real)
    requires forall i, j :: 0 <= i < j < |cycles| ==> cycles[i].startedAt <= cycles[j].startedAt
    ensures forall i :: 0 <= i < |cycles| ==> (cycles[i].startedAt <= t <==> i < BisectRight(cycles, t))
  {
    if cycles != [] && cycles[0].startedAt <= t {
      BisectSplits(cycles[1..], t);
      forall i | 1 <= i < |cycles|
        ensures cycles[i].startedAt <= t <==> i < BisectRight(cycles, t)
      {
        assert cycles[1..][i - 1] == cycles[i];
      }
    }
  }

  predicate Holds(cycle: Cycle, t: real, checkedAt: real) {
    cycle.startedAt <= t <= CycleEnd(cycle, checkedAt)
  }

  /** The last cycle in row order whose closed interval holds `t`, or -1. */
  ghost predicate IsCredited(cycles: seq<Cycle>, t: real, checkedAt: real, index: int) {
    && -1 <= index < |cycles|
    && (index >= 0 ==> Holds(cycles[index], t, checkedAt))
    && (forall i :: index < i < |cycles| ==> !Holds(cycles[i], t, checkedAt))
  }

  /** The backward scan from the bisection point. */
  method CreditSnapshot(cycles: seq<Cycle>, t: real, checkedAt: real) returns (index: int)
    requires OrderedCycles(cycles)
    ensures IsCredited(cycles, t, checkedAt, index)
  {
    BisectSplits(cycles, t);
    index := BisectRight(cycles, t) - 1;
    while index >= 0
      invariant -1 <= index < |cycles|
      invariant forall i :: 0 <= i <= index ==> cycles[i].startedAt <= t
      invariant forall i :: index < i < |cycles| ==> !Holds(cycles[i], t, checkedAt)
    {
      if t <= CycleEnd(cycles[index], checkedAt) { return; }
      index := index - 1;
    }
  }

  /** The credited cycle had started and had not ended, an open one ending with the check; no later one had. */
  lemma CreditedWasRunning(cycles: seq<Cycle>, t: real, checkedAt: real, index: int, i: int)
    requires IsCredited(cycles, t, checkedAt, index) && index <= i && 0 <= i < |cycles|
    ensures var end := cycles[i].completedAt;
            cycles[i].startedAt <= t && t <= (if end.Some? then end.value else checkedAt) <==> i == index
  {
  }

  /** The credited cycle is the latest-started of all cycles that hold the snapshot. */
  lemma CreditedStartsLatest(cycles: seq<Cycle>, t: real, checkedAt: real, index: int, other: int)
    requires OrderedCycles(cycles) && IsCredited(cycles, t, checkedAt, index)
    requires 0 <= other < |cycles| && Holds(cycles[other], t, checkedAt)
    ensures index >= 0 && cycles[other].startedAt <= cycles[index].startedAt
  {
  }

  /** The same search as a specification. */
  function CreditedIndex(cycles: seq<Cycle>, t: real, checkedAt: real): (index: int)
    ensures -1 <= index < |cycles|
    ensures IsCredited(cycles, t, checkedAt, index)
  {
    if cycles == [] then -1
    else if Holds(cycles[|cycles| - 1], t, checkedAt) then |cycles| - 1
    else CreditedIndex(cycles[..|cycles| - 1], t, checkedAt)
  }

  lemma CreditIsUnique(cycles: seq<Cycle>, t: real, checkedAt: real, a: int, b: int)
    requires IsCredited(cycles, t, checkedAt, a) && IsCredited(cycles, t, checkedAt, b)
    ensures a == b
  {
  }

  /** Snapshots credited to cycle `i`. */
  ghost function Credits(cycles: seq<Cycle>, snapshots: seq<real>, checkedAt: real, i: nat): nat {
    if snapshots == [] then 0
    else Credits(cycles, snapshots[..|snapshots| - 1], checkedAt, i)
         + (if CreditedIndex(cycles, snapshots[|snapshots| - 1], checkedAt) == i then 1 else 0)
  }

  predicate Covered(cycles: seq<Cycle>, t: real, checkedAt: real) {
    exists i :: 0 <= i < |cycles| && Holds(cycles[i], t, checkedAt)
  }

  ghost function CoveredCount(cycles: seq<Cycle>, snapshots: seq<real>, checkedAt: real): nat {
    if snapshots == [] then 0
    else CoveredCount(cycles, snapshots[..|snapshots| - 1], checkedAt)
         + (if Covered(cycles, snapshots[|snapshots| - 1], checkedAt) then 1 else 0)
  }

  /** The credits of the first `n` cycles. */
  ghost function TotalCredits(cycles: seq<Cycle>, snapshots: seq<real>, checkedAt: real, n: nat): nat {
    if n == 0 then 0
    else TotalCredits(cycles, snapshots, checkedAt, n - 1) + Credits(cycles, snapshots, checkedAt, n - 1)
  }

  lemma {:induction false} NoCredits(cycles: seq<Cycle>, checkedAt: real, n: nat)
    ensures TotalCredits(cycles, [], checkedAt, n) == 0
  {
    if n > 0 { NoCredits(cycles, checkedAt, n - 1); }
  }

  lemma {:induction false} OneMoreCredit(cycles: seq<Cycle>, snapshots: seq<real>, t: real, checkedAt: real, n: nat)
    ensures TotalCredits(cycles, snapshots + [t], checkedAt, n) ==
            TotalCredits(cycles, snapshots, checkedAt, n)
            + (if 0 <= CreditedIndex(cycles, t, checkedAt) < n then 1 else 0)
  {
    if n > 0 {
      OneMoreCredit(cycles, snapshots, t, checkedAt, n - 1);
      assert (snapshots + [t])[..|snapshots|] == snapshots;
    }
  }

  /** Each snapshot inside some cycle is credited exactly once, the others never. */
  lemma {:induction false} CreditsAreCoveredSnapshots(cycles: seq<Cycle>, snapshots: seq<real>, checkedAt: real)
    ensures TotalCredits(cycles, snapshots, checkedAt, |cycles|) == CoveredCount(cycles, snapshots, checkedAt)
  {
    if snapshots == [] {
      NoCredits(cycles, checkedAt, |cycles|);
    } else {
      var before, t := snapshots[..|snapshots| - 1], snapshots[|snapshots| - 1];
      assert snapshots == before + [t];
      CreditsAreCoveredSnapshots(cycles, before, checkedAt);
      OneMoreCredit(cycles, before, t, checkedAt, |cycles|);
      assert Covered(cycles, t, checkedAt) <==> CreditedIndex(cycles, t, checkedAt) >= 0;
    }
  }

  /** A `Counter` entry that was never touched reads zero. */
  function CountOf(counts: map<int, nat>, id: int): nat {
    if id in counts then counts[id] else 0
  }

  /** The attribution loop: the counter of every cycle holds its credits. */
  method AttributeSnapshots(cycles: seq<Cycle>, snapshots: seq<real>, checkedAt: real) returns (counts: map<int, nat>)
    requires OrderedCycles(cycles)
    ensures forall i :: 0 <= i < |cycles| ==> CountOf(counts, cycles[i].id) == Credits(cycles, snapshots, checkedAt, i)
  {
    counts := map[];
    var k := 0;
    while k < |snapshots|
      invariant 0 <= k <= |snapshots|
      invariant forall i :: 0 <= i < |cycles| ==>
                              CountOf(counts, cycles[i].id) == Credits(cycles, snapshots[..k], checkedAt, i)
    {
      var index := CreditSnapshot(cycles, snapshots[k], checkedAt);
      CreditIsUnique(cycles, snapshots[k], checkedAt, index, CreditedIndex(cycles, snapshots[k], checkedAt));
      assert snapshots[..k + 1][..k] == snapshots[..k];
      hide CreditedIndex, Holds;
      if index >= 0 {
        var id := cycles[index].id;
        counts := counts[id := CountOf(counts, id) + 1];
      }
      k := k + 1;
    }
    assert snapshots[..k] == snapshots;
  }
}
