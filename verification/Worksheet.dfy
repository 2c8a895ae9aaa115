/**
 The field worksheet generator (`_ordered_session_candidates`, `_reliability_candidates` and
 `render_worksheet` in backend/scripts/prepare_eval_observations.py) against the structure
 check and the pairing of the evaluator (`_validate_observation_structure` and
 `summarize_reliability` in backend/scripts/run_eval.py).
 */
module Worksheet {
  import opened IntDivision
  import opened Outcomes

  const DISTANCE_BANDS := ["near", "mid", "fringe"]

  datatype Candidate = Candidate(cafeId: int, hotspotName: string, distanceBand: string, poiValid: bool)

  datatype FieldSession = FieldSession(hotspotName: string, slot: string)

  datatype Role = Primary | Reliability

  /** The columns of a row that the evaluator's structure check reads. */
  datatype Row = Row(observerId: string, cafeId: int, slot: string, role: Role)

  // ---------------------------------------------------------------------------------------
  // Choosing and ordering candidates
  // ---------------------------------------------------------------------------------------

  predicate KnownBand(band: string) {
    band == "near" || band == "mid" || band == "fringe"
  }

  function BandIndex(band: string): nat {
    if band == "near" then 0 else if band == "mid" then 1 else 2
  }

  /** The sort key: band order, then cafe id. */
  predicate KeyAtMost(a: Candidate, b: Candidate) {
    var i, j := BandIndex(a.distanceBand), BandIndex(b.distanceBand);
    i < j || (i == j && a.cafeId <= b.cafeId)
  }

  function SessionCandidates(candidates: seq<Candidate>, s: FieldSession): seq<Candidate> {
    if candidates == [] then []
    else
      (if candidates[0].poiValid && candidates[0].hotspotName == s.hotspotName then [candidates[0]] else [])
      + SessionCandidates(candidates[1..], s)
  }

  function Insert(c: Candidate, sorted: seq<Candidate>): seq<Candidate> {
    if sorted == [] || KeyAtMost(c, sorted[0]) then [c] + sorted else [sorted[0]] + Insert(c, sorted[1..])
  }

  function Sort(candidates: seq<Candidate>): seq<Candidate> {
    if candidates == [] then [] else Insert(candidates[0], Sort(candidates[1..]))
  }

  function OrderedSessionCandidates(candidates: seq<Candidate>, s: FieldSession): Result<seq<Candidate>> {
    var chosen := SessionCandidates(candidates, s);
    if chosen == [] then Error("session hotspot has no valid candidates")
    else if exists c :: c in chosen && !KnownBand(c.distanceBand) then
      Error("session contains unsupported distance bands")
    else Ok(Sort(chosen))
  }

  function InBand(candidates: seq<Candidate>, band: string): seq<Candidate> {
    if candidates == [] then []
    else (if candidates[0].distanceBand == band then [candidates[0]] else []) + InBand(candidates[1..], band)
  }

  function RotatedBand(sessionIndex: nat): string {
    DISTANCE_BANDS[sessionIndex % 3]
  }

  function ReliabilityCandidates(candidates: seq<Candidate>, sessionIndex: nat): Result<set<int>> {
    var near, mid, fringe := InBand(candidates, "near"), InBand(candidates, "mid"), InBand(candidates, "fringe");
    if near == [] || mid == [] || fringe == [] then Error("reliability overlap requires every distance band")
    else
      var rotated := InBand(candidates, RotatedBand(sessionIndex));
      if |rotated| < 2 then Error("reliability overlap requires two candidates in rotated band")
      else
        var selected := {near[sessionIndex % |near|].cafeId, mid[sessionIndex % |mid|].cafeId,
                         fringe[sessionIndex % |fringe|].cafeId,
                         rotated[(sessionIndex + 1) % |rotated|].cafeId};
        if |selected| != 4 then Error("reliability overlap must select four distinct candidates")
        else Ok(selected)
  }

  ghost predicate UniqueCafes(candidates: seq<Candidate>) {
    forall i, j :: 0 <= i < j < |candidates| ==> candidates[i].cafeId != candidates[j].cafeId
  }

  lemma PrependUnique(c: Candidate, rest: seq<Candidate>)
    requires UniqueCafes(rest) && forall d :: d in rest ==> d.cafeId != c.cafeId
    ensures UniqueCafes([c] + rest)
  {
    assert forall i :: 0 <= i < |rest| ==> rest[i] in rest;
  }

  lemma HeadIsUnique(candidates: seq<Candidate>)
    requires UniqueCafes(candidates) && candidates != []
    ensures UniqueCafes(candidates[1..])
    ensures forall d :: d in candidates[1..] ==> d.cafeId != candidates[0].cafeId && d in candidates
  {
    forall d | d in candidates[1..]
      ensures d.cafeId != candidates[0].cafeId && d in candidates
    {
      var i :| 0 <= i < |candidates[1..]| && candidates[1..][i] == d;
      assert candidates[i + 1] == d;
    }
  }

  /** Filtering keeps the chosen candidates and their uniqueness. */
  lemma {:induction false} SessionCandidatesUnique(candidates: seq<Candidate>, s: FieldSession)
    requires UniqueCafes(candidates)
    ensures UniqueCafes(SessionCandidates(candidates, s))
    ensures forall c :: c in SessionCandidates(candidates, s) <==>
                        c in candidates && c.poiValid && c.hotspotName == s.hotspotName
  {
    if candidates != [] {
      HeadIsUnique(candidates);
      SessionCandidatesUnique(candidates[1..], s);
      assert candidates == [candidates[0]] + candidates[1..];
      if candidates[0].poiValid && candidates[0].hotspotName == s.hotspotName {
        PrependUnique(candidates[0], SessionCandidates(candidates[1..], s));
      }
    }
  }

  lemma {:induction false} InBandUnique(candidates: seq<Candidate>, band: string)
    requires UniqueCafes(candidates)
    ensures UniqueCafes(InBand(candidates, band))
    ensures forall c :: c in InBand(candidates, band) <==> c in candidates && c.distanceBand == band
  {
    if candidates != [] {
      HeadIsUnique(candidates);
      InBandUnique(candidates[1..], band);
      assert candidates == [candidates[0]] + candidates[1..];
      if candidates[0].distanceBand == band {
        PrependUnique(candidates[0], InBand(candidates[1..], band));
      }
    }
  }

  ghost predicate SortedByKey(candidates: seq<Candidate>) {
    forall i, j :: 0 <= i < j < |candidates| ==> KeyAtMost(candidates[i], candidates[j])
  }

  lemma {:induction false} InsertKeeps(c: Candidate, sorted: seq<Candidate>)
    requires SortedByKey(sorted)
    ensures SortedByKey(Insert(c, sorted)) && |Insert(c, sorted)| == |sorted| + 1
    ensures forall d :: d in Insert(c, sorted) <==> d == c || d in sorted
    ensures UniqueCafes(sorted) && (forall d :: d in sorted ==> d.cafeId != c.cafeId) ==> UniqueCafes(Insert(c, sorted))
  {
    if sorted == [] {
    } else if KeyAtMost(c, sorted[0]) {
      if UniqueCafes(sorted) && (forall d :: d in sorted ==> d.cafeId != c.cafeId) {
        PrependUnique(c, sorted);
      }
      assert forall j :: 0 <= j < |sorted| ==> KeyAtMost(sorted[0], sorted[j]) || j == 0;
    } else {
      var rest := sorted[1..];
      assert sorted == [sorted[0]] + rest;
      InsertKeeps(c, rest);
      if UniqueCafes(sorted) && (forall d :: d in sorted ==> d.cafeId != c.cafeId) {
        HeadIsUnique(sorted);
        PrependUnique(sorted[0], Insert(c, rest));
      }
      HeadIsSmallest(c, sorted);
    }
  }

  lemma HeadIsSmallest(c: Candidate, sorted: seq<Candidate>)
    requires SortedByKey(sorted) && sorted != [] && !KeyAtMost(c, sorted[0])
    requires SortedByKey(Insert(c, sorted[1..]))
    requires forall d :: d in Insert(c, sorted[1..]) <==> d == c || d in sorted[1..]
    ensures SortedByKey([sorted[0]] + Insert(c, sorted[1..]))
  {
    hide KeyAtMost, Insert;
    var rest := Insert(c, sorted[1..]);
    assert KeyAtMost(sorted[0], c) by { KeysCompare(c, sorted[0]); }
    forall j | 0 <= j < |rest|
      ensures KeyAtMost(sorted[0], rest[j])
    {
      assert rest[j] in rest;
      if rest[j] != c {
        var i :| 0 <= i < |sorted[1..]| && sorted[1..][i] == rest[j];
        assert sorted[i + 1] == rest[j];
      }
    }
  }

  lemma KeysCompare(a: Candidate, b: Candidate)
    ensures KeyAtMost(a, b) || KeyAtMost(b, a)
  {
  }

  /** Sorting keeps the candidates and orders them by band and id. */
  lemma {:induction false} SortKeeps(candidates: seq<Candidate>)
    requires UniqueCafes(candidates)
    ensures SortedByKey(Sort(candidates)) && |Sort(candidates)| == |candidates|
    ensures UniqueCafes(Sort(candidates))
    ensures forall c :: c in Sort(candidates) <==> c in candidates
  {
    if candidates != [] {
      HeadIsUnique(candidates);
      SortKeeps(candidates[1..]);
      InsertKeeps(candidates[0], Sort(candidates[1..]));
      assert candidates == [candidates[0]] + candidates[1..];
    }
  }

  // ---------------------------------------------------------------------------------------
  // Four distinct candidates
  // ---------------------------------------------------------------------------------------

  predicate EveryBandFilled(candidates: seq<Candidate>) {
    InBand(candidates, "near") != [] && InBand(candidates, "mid") != [] && InBand(candidates, "fringe") != []
  }

  /** The check for four distinct candidates never fires: only the two band errors exist. */
  lemma FourDistinctCandidates(candidates: seq<Candidate>, sessionIndex: nat)
    requires UniqueCafes(candidates)
    ensures var result := ReliabilityCandidates(candidates, sessionIndex);
            && (result.Ok? <==> EveryBandFilled(candidates) && |InBand(candidates, RotatedBand(sessionIndex))| >= 2)
            && (result.Ok? ==> |result.value| == 4
                               && forall id :: id in result.value ==> exists c :: c in candidates && c.cafeId == id)
  {
    var near, mid, fringe := InBand(candidates, "near"), InBand(candidates, "mid"), InBand(candidates, "fringe");
    var rotated := InBand(candidates, RotatedBand(sessionIndex));
    assert RotatedBand(sessionIndex) in {DISTANCE_BANDS[0], DISTANCE_BANDS[1], DISTANCE_BANDS[2]};
    hide InBand, RotatedBand;
    if near != [] && mid != [] && fringe != [] && |rotated| >= 2 {
      PickedFour(candidates, near, mid, fringe, rotated, sessionIndex);
    }
  }

  /** One pick of each band, and a second, different one of the rotated band. */
  lemma PickedFour(
      candidates: seq<Candidate>, near: seq<Candidate>, mid: seq<Candidate>, fringe: seq<Candidate>,
      rotated: seq<Candidate>, sessionIndex: nat)
    requires UniqueCafes(candidates)
    requires near == InBand(candidates, "near") != [] && mid == InBand(candidates, "mid") != []
    requires fringe == InBand(candidates, "fringe") != [] && |rotated| >= 2
    requires rotated == near || rotated == mid || rotated == fringe
    ensures var picks := {near[sessionIndex % |near|].cafeId, mid[sessionIndex % |mid|].cafeId,
                          fringe[sessionIndex % |fringe|].cafeId, rotated[(sessionIndex + 1) % |rotated|].cafeId};
            |picks| == 4 && forall id :: id in picks ==> exists c :: c in candidates && c.cafeId == id
  {
    hide InBand, UniqueCafes;
    InBandUnique(candidates, "near");
    InBandUnique(candidates, "mid");
    InBandUnique(candidates, "fringe");
    var a, b, c := near[sessionIndex % |near|], mid[sessionIndex % |mid|], fringe[sessionIndex % |fringe|];
    var d := rotated[(sessionIndex + 1) % |rotated|];
    NextIndexDiffers(sessionIndex, |rotated|);
    assert a in near && b in mid && c in fringe && d in rotated;
    assert a.distanceBand[0] == 'n' && b.distanceBand[0] == 'm' && c.distanceBand[0] == 'f';
    DifferentCafes(candidates, a, b);
    DifferentCafes(candidates, a, c);
    DifferentCafes(candidates, b, c);
    DifferentCafes(candidates, a, d);
    DifferentCafes(candidates, b, d);
    DifferentCafes(candidates, c, d);
    FourElements(a.cafeId, b.cafeId, c.cafeId, d.cafeId);
  }

  lemma NextIndexDiffers(k: nat, n: nat)
    requires n >= 2
    ensures k % n != (k + 1) % n
  {
    var q, r := k / n, k % n;
    if r + 1 < n {
      AddTurns(r + 1, q, n);
    } else {
      assert k + 1 == 0 + (q + 1) * n;
      AddTurns(0, q + 1, n);
    }
  }

  lemma DifferentCafes(candidates: seq<Candidate>, a: Candidate, b: Candidate)
    requires UniqueCafes(candidates) && a in candidates && b in candidates && a != b
    ensures a.cafeId != b.cafeId
  {
    var i :| 0 <= i < |candidates| && candidates[i] == a;
    var j :| 0 <= j < |candidates| && candidates[j] == b;
  }

  lemma FourElements(a: int, b: int, c: int, d: int)
    requires a != b && a != c && a != d && b != c && b != d && c != d
    ensures |{a, b, c, d}| == 4
  {
    assert {a, b, c, d} - {a} == {b, c, d};
    assert {b, c, d} - {b} == {c, d};
    assert {c, d} - {c} == {d};
  }

  // ---------------------------------------------------------------------------------------
  // Rendering
  // ---------------------------------------------------------------------------------------

  /** The rows of one candidate: its primary row, and the other observer's row when selected. */
  function CandidateRows(
      c: Candidate, slot: string, observers: (string, string), primarySecond: bool, selected: set<int>): seq<Row> {
    var primary := if primarySecond then observers.1 else observers.0;
    var other := if primarySecond then observers.0 else observers.1;
    [Row(primary, c.cafeId, slot, Primary)]
    + (if c.cafeId in selected then [Row(other, c.cafeId, slot, Reliability)] else [])
  }

  /** The rows of the first `n` candidates of a session. */
  function SessionRows(
      ordered: seq<Candidate>, slot: string, observers: (string, string), sessionIndex: nat, selected: set<int>, n: nat)
    : seq<Row>
    requires n <= |ordered|
  {
    if n == 0 then []
    else
      SessionRows(ordered, slot, observers, sessionIndex, selected, n - 1)
      + CandidateRows(ordered[n - 1], slot, observers, (n - 1 + sessionIndex) % 2 == 1, selected)
  }

  function RenderSession(
      candidates: seq<Candidate>, s: FieldSession, sessionIndex: nat, observers: (string, string)): Result<seq<Row>> {
    match OrderedSessionCandidates(candidates, s)
    case Error(message) => Error(message)
    case Ok(ordered) =>
      match ReliabilityCandidates(ordered, sessionIndex)
      case Error(message) => Error(message)
      case Ok(selected) => Ok(SessionRows(ordered, s.slot, observers, sessionIndex, selected, |ordered|))
  }

  /** The rows of the first `n` sessions, or the first error. */
  function RenderSessions(
      candidates: seq<Candidate>, sessions: seq<FieldSession>, observers: (string, string), n: nat): Result<seq<Row>>
    requires n <= |sessions|
  {
    if n == 0 then Ok([])
    else
      match RenderSessions(candidates, sessions, observers, n - 1)
      case Error(message) => Error(message)
      case Ok(rows) =>
        match RenderSession(candidates, sessions[n - 1], n - 1, observers)
        case Error(message) => Error(message)
        case Ok(more) => Ok(rows + more)
  }

  function Rendered(
      candidates: seq<Candidate>, sessions: seq<FieldSession>, observers: (string, string)): Result<seq<Row>> {
    if sessions == [] then Error("at least one session is required")
    else RenderSessions(candidates, sessions, observers, |sessions|)
  }

  /** The inner writing loop: the rows of one session. */
  method WriteSession(
      ordered: seq<Candidate>, slot: string, observers: (string, string), sessionIndex: nat, selected: set<int>)
    returns (rows: seq<Row>)
    ensures rows == SessionRows(ordered, slot, observers, sessionIndex, selected, |ordered|)
  {
    rows := [];
    var i := 0;
    while i < |ordered|
      invariant 0 <= i <= |ordered|
      invariant rows == SessionRows(ordered, slot, observers, sessionIndex, selected, i)
    {
      var c := ordered[i];
      var primaryIndex := (i + sessionIndex) % 2;
      ghost var start := rows;
      rows := rows + [Row(if primaryIndex == 1 then observers.1 else observers.0, c.cafeId, slot, Primary)];
      if c.cafeId in selected {
        rows := rows + [Row(if primaryIndex == 1 then observers.0 else observers.1, c.cafeId, slot, Reliability)];
      }
      assert rows == start + CandidateRows(c, slot, observers, primaryIndex == 1, selected);
      i := i + 1;
    }
  }

  /** The outer writing loop. */
  method RenderWorksheet(candidates: seq<Candidate>, sessions: seq<FieldSession>, observers: (string, string))
    returns (result: Result<seq<Row>>)
    ensures result == Rendered(candidates, sessions, observers)
  {
    hide OrderedSessionCandidates, ReliabilityCandidates, SessionRows;
    if sessions == [] { return Error("at least one session is required"); }
    var rows: seq<Row> := [];
    var sessionIndex := 0;
    while sessionIndex < |sessions|
      invariant 0 <= sessionIndex <= |sessions|
      invariant RenderSessions(candidates, sessions, observers, sessionIndex) == Ok(rows)
    {
      var session := sessions[sessionIndex];
      var ordered := OrderedSessionCandidates(candidates, session);
      if ordered.Error? {
        ErrorsPropagate(candidates, sessions, observers, sessionIndex + 1, |sessions|);
        return Error(ordered.message);
      }
      var selected := ReliabilityCandidates(ordered.value, sessionIndex);
      if selected.Error? {
        ErrorsPropagate(candidates, sessions, observers, sessionIndex + 1, |sessions|);
        return Error(selected.message);
      }
      var more := WriteSession(ordered.value, session.slot, observers, sessionIndex, selected.value);
      rows := rows + more;
      sessionIndex := sessionIndex + 1;
    }
    result := Ok(rows);
  }

  lemma {:induction false} ErrorsPropagate(
      candidates: seq<Candidate>, sessions: seq<FieldSession>, observers: (string, string), k: nat, n: nat)
    requires k <= n <= |sessions| && RenderSessions(candidates, sessions, observers, k).Error?
    ensures RenderSessions(candidates, sessions, observers, n) == RenderSessions(candidates, sessions, observers, k)
  {
    hide RenderSession;
    if k < n { ErrorsPropagate(candidates, sessions, observers, k, n - 1); }
  }

  // ---------------------------------------------------------------------------------------
  // The evaluator's structure check
  // ---------------------------------------------------------------------------------------

  /** The key of the evaluator's grouping. */
  function KeyOf(r: Row): (int, string) {
    (r.cafeId, r.slot)
  }

  /** Rows of a role for one cafe and slot. */
  function RoleCount(rows: seq<Row>, key: (int, string), role: Role): nat {
    if rows == [] then 0
    else
      var last := rows[|rows| - 1];
      RoleCount(rows[..|rows| - 1], key, role) + (if KeyOf(last) == key && last.role == role then 1 else 0)
  }

  ghost predicate DistinctAssignments(rows: seq<Row>) {
    forall i, j :: 0 <= i < j < |rows| ==>
                     !(KeyOf(rows[i]) == KeyOf(rows[j]) && rows[i].observerId == rows[j].observerId)
  }

  /** What the structure check accepts: no repeated assignment, one primary, at most one reliability row. */
  ghost predicate StructureOk(rows: seq<Row>) {
    && DistinctAssignments(rows)
    && (forall r :: r in rows ==>
          RoleCount(rows, KeyOf(r), Primary) == 1 && RoleCount(rows, KeyOf(r), Reliability) <= 1)
  }

  function CountRole(group: seq<Row>, role: Role): nat {
    if group == [] then 0
    else CountRole(group[..|group| - 1], role) + (if group[|group| - 1].role == role then 1 else 0)
  }

  function Group(rows: seq<Row>, key: (int, string)): seq<Row> {
    if rows == [] then []
    else Group(rows[..|rows| - 1], key) + (if KeyOf(rows[|rows| - 1]) == key then [rows[|rows| - 1]] else [])
  }

  lemma {:induction false} GroupCounts(rows: seq<Row>, key: (int, string), role: Role)
    ensures CountRole(Group(rows, key), role) == RoleCount(rows, key, role)
    ensures Group(rows, key) != [] <==> exists r :: r in rows && KeyOf(r) == key
  {
    if rows != [] {
      var before, last := rows[..|rows| - 1], rows[|rows| - 1];
      assert rows == before + [last];
      GroupCounts(before, key, role);
      var group := Group(before, key);
      if KeyOf(last) == key {
        assert (group + [last])[..|group|] == group;
      } else {
        assert group + [] == group;
      }
    }
  }

  type Groups = map<(int, string), seq<Row>>

  ghost predicate GroupsRows(groups: Groups, rows: seq<Row>) {
    forall key ::
      && (if key in groups then groups[key] else []) == Group(rows, key)
      && (key in groups ==> groups[key] != [])
  }

  type Assignment = (string, int, string)

  function AssignmentOf(r: Row): Assignment {
    (r.observerId, r.cafeId, r.slot)
  }

  /** `seen` holds the assignments of the rows, and none is repeated. */
  ghost predicate SeenOnce(seen: set<Assignment>, rows: seq<Row>) {
    DistinctAssignments(rows) && forall a :: a in seen <==> exists r :: r in rows && AssignmentOf(r) == a
  }

  lemma SeeOneMore(seen: set<Assignment>, rows: seq<Row>, i: nat)
    requires i < |rows| && SeenOnce(seen, rows[..i])
    ensures if AssignmentOf(rows[i]) in seen then !DistinctAssignments(rows)
            else SeenOnce(seen + {AssignmentOf(rows[i])}, rows[..i + 1])
  {
    var before, row := rows[..i], rows[i];
    assert rows[..i + 1] == before + [row];
    if AssignmentOf(row) in seen {
      var r :| r in before && AssignmentOf(r) == AssignmentOf(row);
      var k :| 0 <= k < i && rows[k] == r;
    } else {
      forall k | 0 <= k < i
        ensures !(KeyOf(rows[k]) == KeyOf(row) && rows[k].observerId == row.observerId)
      {
        assert rows[k] in before;
      }
    }
  }

  lemma GroupOneMore(groups: Groups, rows: seq<Row>, i: nat)
    requires i < |rows| && GroupsRows(groups, rows[..i])
    ensures var key := KeyOf(rows[i]);
            GroupsRows(groups[key := (if key in groups then groups[key] else []) + [rows[i]]], rows[..i + 1])
  {
    assert rows[..i + 1][..i] == rows[..i];
  }

  /** The evaluator's check: it passes exactly the well-structured worksheets. */
  method ValidateObservationStructure(rows: seq<Row>) returns (ok: bool)
    ensures ok <==> StructureOk(rows)
  {
    hide SeenOnce, GroupsRows, DistinctAssignments, RoleCount, Group;
    var seen: set<Assignment> := {};
    var groups: Groups := map[];
    assert SeenOnce(seen, rows[..0]) && GroupsRows(groups, rows[..0]) by { NothingSeen(); }
    var i := 0;
    while i < |rows|
      invariant 0 <= i <= |rows|
      invariant SeenOnce(seen, rows[..i])
      invariant GroupsRows(groups, rows[..i])
    {
      var row := rows[i];
      SeeOneMore(seen, rows, i);
      if AssignmentOf(row) in seen { return false; }
      seen := seen + {AssignmentOf(row)};
      GroupOneMore(groups, rows, i);
      groups := groups[KeyOf(row) := (if KeyOf(row) in groups then groups[KeyOf(row)] else []) + [row]];
      i := i + 1;
    }
    assert rows[..i] == rows;
    SeenMeansDistinct(seen, rows);
    ok := CheckGroups(groups, rows);
  }

  lemma NothingSeen()
    ensures SeenOnce({}, []) && GroupsRows(map[], [])
  {
  }

  lemma SeenMeansDistinct(seen: set<Assignment>, rows: seq<Row>)
    requires SeenOnce(seen, rows)
    ensures DistinctAssignments(rows)
  {
  }

  /** The loop over the groups. */
  method CheckGroups(groups: Groups, ghost rows: seq<Row>) returns (ok: bool)
    requires GroupsRows(groups, rows) && DistinctAssignments(rows)
    ensures ok <==> StructureOk(rows)
  {
    hide Group, CountRole, RoleCount;
    var keys := groups.Keys;
    while keys != {}
      invariant keys <= groups.Keys
      invariant forall key :: key in groups && key !in keys ==>
                                RoleCount(rows, key, Primary) == 1 && RoleCount(rows, key, Reliability) <= 1
      decreases keys
    {
      var key :| key in keys;
      GroupCounts(rows, key, Primary);
      GroupCounts(rows, key, Reliability);
      if CountRole(groups[key], Primary) != 1 || CountRole(groups[key], Reliability) > 1 {
        return false;
      }
      keys := keys - {key};
    }
    forall r | r in rows
      ensures KeyOf(r) in groups
    {
      GroupCounts(rows, KeyOf(r), Primary);
    }
    ok := true;
  }

  // ---------------------------------------------------------------------------------------
  // The generator satisfies the check
  // ---------------------------------------------------------------------------------------

  /** The cafe and slot keys the evaluator pairs: those with a row of either role. */
  ghost function PairKeys(rows: seq<Row>): set<(int, string)> {
    set r | r in rows && r.role == Reliability && RoleCount(rows, KeyOf(r), Primary) > 0 :: KeyOf(r)
  }

  /** Primary rows of an observer. */
  function PrimaryCount(rows: seq<Row>, observerId: string): nat {
    if rows == [] then 0
    else
      var last := rows[|rows| - 1];
      PrimaryCount(rows[..|rows| - 1], observerId)
      + (if last.role == Primary && last.observerId == observerId then 1 else 0)
  }

  ghost predicate NewKey(rows: seq<Row>, key: (int, string)) {
    forall r :: r in rows ==> KeyOf(r) != key
  }

  lemma {:induction false} NewKeyHasNoRows(rows: seq<Row>, key: (int, string), role: Role)
    requires NewKey(rows, key)
    ensures RoleCount(rows, key, role) == 0
  {
    if rows != [] {
      var before := rows[..|rows| - 1];
      assert rows == before + [rows[|rows| - 1]];
      NewKeyHasNoRows(before, key, role);
    }
  }

  lemma OneMoreRow(rows: seq<Row>, r: Row, key: (int, string), role: Role)
    ensures RoleCount(rows + [r], key, role) ==
            RoleCount(rows, key, role) + (if KeyOf(r) == key && r.role == role then 1 else 0)
  {
    assert (rows + [r])[..|rows|] == rows;
  }

  /** Adding the rows of one candidate under a new key keeps the structure and adds one pair if selected. */
  lemma CandidateKeepsStructure(
      rows: seq<Row>, c: Candidate, slot: string, observers: (string, string), primarySecond: bool, selected: set<int>)
    requires StructureOk(rows) && NewKey(rows, (c.cafeId, slot)) && observers.0 != observers.1
    ensures var more := CandidateRows(c, slot, observers, primarySecond, selected);
            && StructureOk(rows + more)
            && PairKeys(rows + more) == PairKeys(rows) + (if c.cafeId in selected then {(c.cafeId, slot)} else {})
            && (c.cafeId, slot) !in PairKeys(rows)
  {
    hide RoleCount;
    var more := CandidateRows(c, slot, observers, primarySecond, selected);
    var key := (c.cafeId, slot);
    var all := rows + more;
    forall k: (int, string), role: Role
      ensures RoleCount(all, k, role) ==
              RoleCount(rows, k, role)
              + (if k == key && (role == Primary || c.cafeId in selected) then 1 else 0)
    {
      OneMoreRow(rows, more[0], k, role);
      if c.cafeId in selected {
        OneMoreRow(rows + [more[0]], more[1], k, role);
        assert all == rows + [more[0]] + [more[1]];
      } else {
        assert all == rows + [more[0]];
      }
    }
    NewKeyHasNoRows(rows, key, Primary);
    NewKeyHasNoRows(rows, key, Reliability);
    AssignmentsStayDistinct(rows, more, key);
    forall r | r in all
      ensures RoleCount(all, KeyOf(r), Primary) == 1 && RoleCount(all, KeyOf(r), Reliability) <= 1
    {
      assert r in rows || r in more;
    }
    if c.cafeId in selected { assert more[1] in all && KeyOf(more[1]) == key; }
    forall k
      ensures k in PairKeys(all) <==> k in PairKeys(rows) || (c.cafeId in selected && k == key)
    {
      PairKeyCarriesOver(rows, more, all, key, k);
    }
  }

  lemma AssignmentsStayDistinct(rows: seq<Row>, more: seq<Row>, key: (int, string))
    requires DistinctAssignments(rows) && DistinctAssignments(more) && NewKey(rows, key)
    requires forall r :: r in more ==> KeyOf(r) == key
    ensures DistinctAssignments(rows + more)
  {
    var all := rows + more;
    forall i, j | 0 <= i < j < |all|
      ensures !(KeyOf(all[i]) == KeyOf(all[j]) && all[i].observerId == all[j].observerId)
    {
      if i < |rows| <= j {
        assert all[i] in rows && all[j] in more;
      }
    }
  }

  lemma PairKeyCarriesOver(rows: seq<Row>, more: seq<Row>, all: seq<Row>, key: (int, string), k: (int, string))
    requires all == rows + more && NewKey(rows, key)
    requires forall r :: r in more ==> KeyOf(r) == key
    requires RoleCount(all, k, Primary) == RoleCount(rows, k, Primary) + (if k == key then 1 else 0)
    requires RoleCount(rows, key, Primary) == 0
    ensures k in PairKeys(all) <==> k in PairKeys(rows) || (k == key && exists r :: r in more && r.role == Reliability)
  {
    hide RoleCount;
    if r :| r in more && r.role == Reliability && k == key {
      assert r in all;
    }
    if k in PairKeys(rows) {
      var r :| r in rows && r.role == Reliability && KeyOf(r) == k;
      assert r in all;
    }
    if k in PairKeys(all) {
      var r :| r in all && r.role == Reliability && KeyOf(r) == k;
      assert r in rows || r in more;
    }
  }

  ghost function SlotsBefore(sessions: seq<FieldSession>, n: nat): set<string>
    requires n <= |sessions|
  {
    set k | 0 <= k < n :: sessions[k].slot
  }

  /** The rows of the first `n` candidates of a session, appended to well-structured rows of other slots. */
  lemma {:induction false} SessionKeepsStructure(
      rows: seq<Row>, ordered: seq<Candidate>, slot: string, observers: (string, string), sessionIndex: nat,
      selected: set<int>, n: nat)
    requires StructureOk(rows) && (forall r :: r in rows ==> r.slot != slot)
    requires n <= |ordered| && UniqueCafes(ordered) && observers.0 != observers.1
    ensures var more := SessionRows(ordered, slot, observers, sessionIndex, selected, n);
            && StructureOk(rows + more)
            && (forall r :: r in more ==> r.slot == slot && exists k :: 0 <= k < n && ordered[k].cafeId == r.cafeId)
            && |PairKeys(rows + more)| == |PairKeys(rows)| + |SelectedAmong(ordered, selected, n)|
  {
    hide StructureOk, PairKeys, UniqueCafes, CandidateRows, SelectedAmong, NewKey;
    if n == 0 {
      assert rows + [] == rows;
      NoneSelected(ordered, selected);
    } else {
      SessionKeepsStructure(rows, ordered, slot, observers, sessionIndex, selected, n - 1);
      var before := SessionRows(ordered, slot, observers, sessionIndex, selected, n - 1);
      var c := ordered[n - 1];
      CandidateIsNew(rows, before, ordered, slot, n);
      CandidateKeepsStructure(rows + before, c, slot, observers, (n - 1 + sessionIndex) % 2 == 1, selected);
      SelectOneMore(ordered, selected, n);
      CandidateRowsNameIt(c, slot, observers, (n - 1 + sessionIndex) % 2 == 1, selected);
      assert (rows + before) + CandidateRows(c, slot, observers, (n - 1 + sessionIndex) % 2 == 1, selected)
             == rows + SessionRows(ordered, slot, observers, sessionIndex, selected, n);
    }
  }

  lemma CandidateRowsNameIt(
      c: Candidate, slot: string, observers: (string, string), primarySecond: bool, selected: set<int>)
    ensures forall r :: r in CandidateRows(c, slot, observers, primarySecond, selected) ==>
                          r.slot == slot && r.cafeId == c.cafeId
  {
  }

  lemma CandidateIsNew(rows: seq<Row>, before: seq<Row>, ordered: seq<Candidate>, slot: string, n: nat)
    requires 0 < n <= |ordered| && UniqueCafes(ordered) && (forall r :: r in rows ==> r.slot != slot)
    requires forall r :: r in before ==> r.slot == slot && exists k :: 0 <= k < n - 1 && ordered[k].cafeId == r.cafeId
    ensures NewKey(rows + before, (ordered[n - 1].cafeId, slot))
  {
  }

  ghost function SelectedAmong(ordered: seq<Candidate>, selected: set<int>, n: nat): set<int>
    requires n <= |ordered|
  {
    set k | 0 <= k < n && ordered[k].cafeId in selected :: ordered[k].cafeId
  }

  lemma NoneSelected(ordered: seq<Candidate>, selected: set<int>)
    ensures SelectedAmong(ordered, selected, 0) == {}
  {
  }

  lemma SelectOneMore(ordered: seq<Candidate>, selected: set<int>, n: nat)
    requires 0 < n <= |ordered| && UniqueCafes(ordered)
    ensures |SelectedAmong(ordered, selected, n)| ==
            |SelectedAmong(ordered, selected, n - 1)| + (if ordered[n - 1].cafeId in selected then 1 else 0)
  {
    var id := ordered[n - 1].cafeId;
    assert id !in SelectedAmong(ordered, selected, n - 1);
    assert SelectedAmong(ordered, selected, n) ==
           SelectedAmong(ordered, selected, n - 1) + (if id in selected then {id} else {});
  }

  /** Exactly when a session can be rendered. */
  lemma SessionRenders(candidates: seq<Candidate>, s: FieldSession, sessionIndex: nat, observers: (string, string))
    requires UniqueCafes(candidates)
    ensures var chosen := SessionCandidates(candidates, s);
            RenderSession(candidates, s, sessionIndex, observers).Ok? <==>
            && (forall c :: c in chosen ==> KnownBand(c.distanceBand))
            && EveryBandFilled(chosen)
            && |InBand(chosen, RotatedBand(sessionIndex))| >= 2
  {
    hide Sort, ReliabilityCandidates, UniqueCafes, RotatedBand, SessionRows, InBand, SessionCandidates, SortedByKey;
    var chosen := SessionCandidates(candidates, s);
    SessionCandidatesUnique(candidates, s);
    SortKeeps(chosen);
    FourDistinctCandidates(Sort(chosen), sessionIndex);
    if chosen != [] {
      SortKeepsBand(chosen, "near");
      SortKeepsBand(chosen, "mid");
      SortKeepsBand(chosen, "fringe");
      SortKeepsBand(chosen, RotatedBand(sessionIndex));
    } else {
      NothingInBand("near");
    }
  }

  lemma NothingInBand(band: string)
    ensures InBand([], band) == []
  {
  }

  lemma {:induction false} InsertKeepsBand(c: Candidate, sorted: seq<Candidate>, band: string)
    ensures |InBand(Insert(c, sorted), band)| == |InBand(sorted, band)| + (if c.distanceBand == band then 1 else 0)
  {
    if sorted != [] && !KeyAtMost(c, sorted[0]) {
      InsertKeepsBand(c, sorted[1..], band);
    } else {
      assert ([c] + sorted)[1..] == sorted;
    }
  }

  lemma {:induction false} SortKeepsBand(candidates: seq<Candidate>, band: string)
    ensures |InBand(Sort(candidates), band)| == |InBand(candidates, band)|
  {
    if candidates != [] {
      SortKeepsBand(candidates[1..], band);
      InsertKeepsBand(candidates[0], Sort(candidates[1..]), band);
    }
  }

  /** The rows rendered for the first `n` sessions pass the check and hold four pairs per session. */
  lemma {:induction false} SessionsPassCheck(
      candidates: seq<Candidate>, sessions: seq<FieldSession>, observers: (string, string), n: nat)
    requires UniqueCafes(candidates) && n <= |sessions| && observers.0 != observers.1
    requires forall i, j :: 0 <= i < j < |sessions| ==> sessions[i].slot != sessions[j].slot
    requires RenderSessions(candidates, sessions, observers, n).Ok?
    ensures var rows := RenderSessions(candidates, sessions, observers, n).value;
            && StructureOk(rows) && |PairKeys(rows)| == 4 * n
            && (forall r :: r in rows ==> r.slot in SlotsBefore(sessions, n))
  {
    hide StructureOk, PairKeys, UniqueCafes, SessionRows, ReliabilityCandidates, OrderedSessionCandidates;
    if n == 0 {
      NoRows();
    } else {
      SessionsPassCheck(candidates, sessions, observers, n - 1);
      var rows := RenderSessions(candidates, sessions, observers, n - 1).value;
      var s := sessions[n - 1];
      var ordered := OrderedSessionCandidates(candidates, s).value;
      var selected := ReliabilityCandidates(ordered, n - 1).value;
      OrderedIsUnique(candidates, s);
      FourDistinctCandidates(ordered, n - 1);
      SessionKeepsStructure(rows, ordered, s.slot, observers, n - 1, selected, |ordered|);
      AllSelected(ordered, selected);
    }
  }

  lemma NoRows()
    ensures StructureOk([]) && PairKeys([]) == {}
  {
  }

  lemma OrderedIsUnique(candidates: seq<Candidate>, s: FieldSession)
    requires UniqueCafes(candidates) && OrderedSessionCandidates(candidates, s).Ok?
    ensures UniqueCafes(OrderedSessionCandidates(candidates, s).value)
  {
    SessionCandidatesUnique(candidates, s);
    SortKeeps(SessionCandidates(candidates, s));
  }

  lemma AllSelected(ordered: seq<Candidate>, selected: set<int>)
    requires forall id :: id in selected ==> exists c :: c in ordered && c.cafeId == id
    ensures SelectedAmong(ordered, selected, |ordered|) == selected
  {
    forall id | id in selected
      ensures id in SelectedAmong(ordered, selected, |ordered|)
    {
      var c :| c in ordered && c.cafeId == id;
      var k :| 0 <= k < |ordered| && ordered[k] == c;
    }
  }

  /**
   Every worksheet rendered from unique cafes, unique slots and two different observers
   passes the evaluator's structure check and yields exactly four reliability pairs a session.
   */
  lemma WorksheetPassesCheck(candidates: seq<Candidate>, sessions: seq<FieldSession>, observers: (string, string))
    requires UniqueCafes(candidates) && observers.0 != observers.1
    requires forall i, j :: 0 <= i < j < |sessions| ==> sessions[i].slot != sessions[j].slot
    requires Rendered(candidates, sessions, observers).Ok?
    ensures var rows := Rendered(candidates, sessions, observers).value;
            StructureOk(rows) && |PairKeys(rows)| == 4 * |sessions|
  {
    SessionsPassCheck(candidates, sessions, observers, |sessions|);
  }

  /** A key is paired when its group has a row of either role. */
  lemma {:induction false} RolePresent(rows: seq<Row>, key: (int, string), role: Role)
    ensures RoleCount(rows, key, role) > 0 <==> exists r :: r in rows && r.role == role && KeyOf(r) == key
  {
    if rows != [] {
      var before, last := rows[..|rows| - 1], rows[|rows| - 1];
      assert rows == before + [last];
      RolePresent(before, key, role);
    }
  }

  lemma PairedByRoles(rows: seq<Row>, key: (int, string))
    ensures key in PairKeys(rows) <==> RoleCount(rows, key, Primary) > 0 && RoleCount(rows, key, Reliability) > 0
  {
    hide RoleCount;
    RolePresent(rows, key, Reliability);
  }

  /** The pairing loop of the evaluator's reliability summary. */
  method CountReliabilityPairs(rows: seq<Row>) returns (pairs: nat)
    ensures pairs == |PairKeys(rows)|
  {
    hide GroupsRows, Group, CountRole, RoleCount, PairKeys;
    var groups: Groups := map[];
    assert GroupsRows(groups, rows[..0]) by { NothingSeen(); }
    for i := 0 to |rows|
      invariant GroupsRows(groups, rows[..i])
    {
      GroupOneMore(groups, rows, i);
      groups := groups[KeyOf(rows[i]) := (if KeyOf(rows[i]) in groups then groups[KeyOf(rows[i])] else []) + [rows[i]]];
    }
    assert rows[..|rows|] == rows;
    pairs := 0;
    var keys := groups.Keys;
    ghost var paired: set<(int, string)> := {};
    while keys != {}
      invariant keys <= groups.Keys && pairs == |paired|
      invariant forall key :: key in paired <==> key in groups && key !in keys && key in PairKeys(rows)
      decreases keys
    {
      var key :| key in keys;
      GroupHasRoles(groups, rows, key);
      if CountRole(groups[key], Primary) > 0 && CountRole(groups[key], Reliability) > 0 {
        pairs := pairs + 1;
        paired := paired + {key};
      }
      keys := keys - {key};
    }
    forall key | key in PairKeys(rows)
      ensures key in groups
    {
      PairedIsGrouped(groups, rows, key);
    }
    assert paired == PairKeys(rows);
  }

  lemma GroupHasRoles(groups: Groups, rows: seq<Row>, key: (int, string))
    requires GroupsRows(groups, rows) && key in groups
    ensures key in PairKeys(rows) <==> CountRole(groups[key], Primary) > 0 && CountRole(groups[key], Reliability) > 0
  {
    hide CountRole, RoleCount, Group, PairKeys;
    GroupCounts(rows, key, Primary);
    GroupCounts(rows, key, Reliability);
    PairedByRoles(rows, key);
  }

  lemma PairedIsGrouped(groups: Groups, rows: seq<Row>, key: (int, string))
    requires GroupsRows(groups, rows) && key in PairKeys(rows)
    ensures key in groups
  {
    hide CountRole, RoleCount, Group;
    GroupCounts(rows, key, Primary);
    var r :| r in rows && r.role == Reliability && KeyOf(r) == key;
  }

  lemma OneMorePrimary(rows: seq<Row>, r: Row, observerId: string)
    ensures PrimaryCount(rows + [r], observerId) ==
            PrimaryCount(rows, observerId) + (if r.role == Primary && r.observerId == observerId then 1 else 0)
  {
    assert (rows + [r])[..|rows|] == rows;
  }

  /** The primary rows of a session alternate between the observers, so they split evenly. */
  lemma {:induction false} PrimariesSplitEvenly(
      ordered: seq<Candidate>, slot: string, observers: (string, string), sessionIndex: nat, selected: set<int>, n: nat)
    requires n <= |ordered| && observers.0 != observers.1
    ensures var rows := SessionRows(ordered, slot, observers, sessionIndex, selected, n);
            var first := PrimaryCount(rows, observers.0);
            var second := PrimaryCount(rows, observers.1);
            && first + second == n
            && (if n % 2 == 0 then first == second
                else if sessionIndex % 2 == 0 then first == second + 1 else second == first + 1)
  {
    hide PrimaryCount;
    if n == 0 {
      assert PrimaryCount([], observers.0) == 0 && PrimaryCount([], observers.1) == 0 by { NoPrimaries(observers); }
    } else {
      PrimariesSplitEvenly(ordered, slot, observers, sessionIndex, selected, n - 1);
      var before := SessionRows(ordered, slot, observers, sessionIndex, selected, n - 1);
      var second := (n - 1 + sessionIndex) % 2 == 1;
      CandidateAddsOnePrimary(before, ordered[n - 1], slot, observers, second, selected);
    }
  }

  lemma NoPrimaries(observers: (string, string))
    ensures PrimaryCount([], observers.0) == 0 && PrimaryCount([], observers.1) == 0
  {
  }

  lemma CandidateAddsOnePrimary(
      rows: seq<Row>, c: Candidate, slot: string, observers: (string, string), primarySecond: bool, selected: set<int>)
    requires observers.0 != observers.1
    ensures var all := rows + CandidateRows(c, slot, observers, primarySecond, selected);
            && PrimaryCount(all, observers.0) == PrimaryCount(rows, observers.0) + (if primarySecond then 0 else 1)
            && PrimaryCount(all, observers.1) == PrimaryCount(rows, observers.1) + (if primarySecond then 1 else 0)
  {
    hide PrimaryCount;
    var more := CandidateRows(c, slot, observers, primarySecond, selected);
    OneMorePrimary(rows, more[0], observers.0);
    OneMorePrimary(rows, more[0], observers.1);
    if c.cafeId in selected {
      OneMorePrimary(rows + [more[0]], more[1], observers.0);
      OneMorePrimary(rows + [more[0]], more[1], observers.1);
      assert rows + more == rows + [more[0]] + [more[1]];
    } else {
      assert rows + more == rows + [more[0]];
    }
  }
}
