/**
 The fold over permit rows with duplicate management numbers (`build_permit_profile` with its nested
 `process_page` in backend/scripts/profile_refreshment_permits.py).
 */
module PermitProfile {
  import opened Outcomes
  import opened TextOrder
  import opened Whitespace

  const MAX_PAGE_SIZE := 1_000

  type Id = Option<string>

  /** A permit row: its management number, when the source updated it, and everything else. */
  datatype Permit = Permit(id: Id, updatedAt: Option<string>, content: string)

  /** The digest of a row's canonical JSON. */
  type Fingerprint = Permit -> string

  ghost predicate Injective(fingerprint: Fingerprint) {
    forall a: Permit, b: Permit :: fingerprint(a) == fingerprint(b) ==> a == b
  }

  function UpdatedText(p: Permit): string {
    match p.updatedAt case None => "" case Some(text) => text
  }

  /** The tuple comparison of update time and fingerprint. */
  predicate Outranks(fingerprint: Fingerprint, p: Permit, q: Permit) {
    Before(UpdatedText(q), UpdatedText(p))
    || (UpdatedText(q) == UpdatedText(p) && Before(fingerprint(q), fingerprint(p)))
  }

  predicate Newer(p: Permit, q: Permit) {
    p.updatedAt.Some? && q.updatedAt.Some? && Before(q.updatedAt.value, p.updatedAt.value)
  }

  function Ids(rows: seq<Permit>): set<Id> {
    set r | r in rows :: r.id
  }

  /** For every management number, a row of it that no other row of it outranks. */
  ghost predicate IsSelection(fingerprint: Fingerprint, rows: seq<Permit>, selected: map<Id, Permit>) {
    && selected.Keys == Ids(rows)
    && (forall id :: id in selected ==> selected[id] in rows && selected[id].id == id)
    && (forall r :: r in rows && r.id in selected ==> !Outranks(fingerprint, r, selected[r.id]))
  }

  /** The row a number is compared with: its first one, replaced by each newer one. */
  function Tracked(rows: seq<Permit>, id: Id): (tracked: Option<Permit>)
    ensures tracked.None? <==> id !in Ids(rows)
    ensures tracked.Some? ==> tracked.value in rows && tracked.value.id == id
  {
    if rows == [] then None
    else
      var before, last := rows[..|rows| - 1], rows[|rows| - 1];
      assert rows == before + [last];
      var earlier := Tracked(before, id);
      if last.id == id && (earlier.None? || Newer(last, earlier.value)) then Some(last) else earlier
  }

  /** What a row is among the rows before it. */
  datatype Role = FirstOfNumber | Repeat | LaterVersion | EarlierVersion | SameTime

  function RoleOf(before: seq<Permit>, row: Permit): Role {
    match Tracked(before, row.id)
    case None => FirstOfNumber
    case Some(tracked) =>
      if row == tracked then Repeat
      else if Newer(row, tracked) then LaterVersion
      else if Newer(tracked, row) then EarlierVersion
      else SameTime
  }

  /** How many rows have the role. */
  function RoleCount(rows: seq<Permit>, role: Role): nat {
    if rows == [] then 0
    else
      var before := rows[..|rows| - 1];
      RoleCount(before, role) + if RoleOf(before, rows[|rows| - 1]) == role then 1 else 0
  }

  ghost predicate TracksRows(rows: seq<Permit>, tracked: map<Id, Permit>) {
    && tracked.Keys == Ids(rows)
    && (forall id :: id in tracked ==> Tracked(rows, id) == Some(tracked[id]))
  }

  lemma OutranksIsTransitive(fingerprint: Fingerprint, a: Permit, b: Permit, c: Permit)
    requires Outranks(fingerprint, a, b) && Outranks(fingerprint, b, c)
    ensures Outranks(fingerprint, a, c)
  {
    if Before(UpdatedText(c), UpdatedText(b)) && Before(UpdatedText(b), UpdatedText(a)) {
      BeforeIsTransitive(UpdatedText(c), UpdatedText(b), UpdatedText(a));
    } else if UpdatedText(c) == UpdatedText(b) == UpdatedText(a) {
      BeforeIsTransitive(fingerprint(c), fingerprint(b), fingerprint(a));
    }
  }

  lemma DoesNotOutrankItself(fingerprint: Fingerprint, a: Permit)
    ensures !Outranks(fingerprint, a, a) && !Newer(a, a)
  {
    NotBeforeItself(UpdatedText(a));
    NotBeforeItself(fingerprint(a));
  }

  /**
   The selected rows do not depend on the order of the rows or on how often each one is listed.
   */
  lemma SelectionIsOrderFree(
      fingerprint: Fingerprint, rows: seq<Permit>, others: seq<Permit>,
      selected: map<Id, Permit>, otherwise: map<Id, Permit>)
    requires Injective(fingerprint)
    requires IsSelection(fingerprint, rows, selected) && IsSelection(fingerprint, others, otherwise)
    requires forall r :: r in rows <==> r in others
    ensures selected == otherwise
  {
    hide Outranks;
    assert Ids(rows) == Ids(others);
    forall id | id in selected
      ensures selected[id] == otherwise[id]
    {
      OutranksIsTotal(fingerprint, selected[id], otherwise[id]);
    }
  }

  lemma OutranksIsTotal(fingerprint: Fingerprint, a: Permit, b: Permit)
    requires Injective(fingerprint) && !Outranks(fingerprint, a, b) && !Outranks(fingerprint, b, a)
    ensures a == b
  {
    BeforeIsTotal(UpdatedText(a), UpdatedText(b));
    BeforeIsTotal(fingerprint(a), fingerprint(b));
  }

  // ---------------------------------------------------------------------------------------
  // One more row
  // ---------------------------------------------------------------------------------------

  lemma MoreIds(rows: seq<Permit>, row: Permit)
    ensures Ids(rows + [row]) == Ids(rows) + {row.id}
  {
    assert row in rows + [row];
  }

  /** A row takes over the selection when it outranks the selected row, and only then. */
  lemma SelectOneMore(fingerprint: Fingerprint, rows: seq<Permit>, selected: map<Id, Permit>, row: Permit)
    requires IsSelection(fingerprint, rows, selected)
    ensures IsSelection(fingerprint, rows + [row],
                        if row.id !in selected || Outranks(fingerprint, row, selected[row.id])
                        then selected[row.id := row] else selected)
  {
    hide Outranks;
    var more := rows + [row];
    MoreIds(rows, row);
    DoesNotOutrankItself(fingerprint, row);
    var takesOver := row.id !in selected || Outranks(fingerprint, row, selected[row.id]);
    var next := if takesOver then selected[row.id := row] else selected;
    forall r | r in more && r.id in next
      ensures !Outranks(fingerprint, r, next[r.id])
    {
      if r in rows {
        assert r.id in Ids(rows);
        if r.id == row.id && next[r.id] == row && Outranks(fingerprint, r, row)
            && Outranks(fingerprint, row, selected[row.id]) {
          OutranksIsTransitive(fingerprint, r, row, selected[row.id]);
        }
      }
    }
    assert row in more && forall r :: r in rows ==> r in more;
  }

  /** The tracked row is replaced when another row of it is newer, and the row adds to its role. */
  lemma TrackOneMore(rows: seq<Permit>, tracked: map<Id, Permit>, row: Permit)
    requires TracksRows(rows, tracked)
    ensures TracksRows(rows + [row],
                       if row.id !in tracked || Newer(row, tracked[row.id]) then tracked[row.id := row] else tracked)
    ensures forall role :: RoleCount(rows + [row], role)
                        == RoleCount(rows, role) + if RoleOf(rows, row) == role then 1 else 0
    ensures row.id !in tracked ==> RoleOf(rows, row) == FirstOfNumber
    ensures row.id in tracked ==>
              RoleOf(rows, row) == if row == tracked[row.id] then Repeat
                                   else if Newer(row, tracked[row.id]) then LaterVersion
                                   else if Newer(tracked[row.id], row) then EarlierVersion else SameTime
  {
    hide Newer;
    MoreIds(rows, row);
    assert (rows + [row])[..|rows|] == rows;
  }

  // ---------------------------------------------------------------------------------------
  // What the roles mean
  // ---------------------------------------------------------------------------------------

  /** The first row of the number has an update time. */
  predicate FirstIsTimed(rows: seq<Permit>, id: Id) {
    exists i :: 0 <= i < |rows| && rows[i].id == id && rows[i].updatedAt.Some?
                && forall j :: 0 <= j < i ==> rows[j].id != id
  }

  lemma FirstOfMore(rows: seq<Permit>, row: Permit, id: Id)
    ensures FirstIsTimed(rows + [row], id) <==>
            FirstIsTimed(rows, id) || (id !in Ids(rows) && row.id == id && row.updatedAt.Some?)
  {
    var more := rows + [row];
    if FirstIsTimed(rows, id) {
      var i :| 0 <= i < |rows| && rows[i].id == id && rows[i].updatedAt.Some?
               && forall j :: 0 <= j < i ==> rows[j].id != id;
      assert more[i] == rows[i] && forall j :: 0 <= j < i ==> more[j] == rows[j];
    }
    if id !in Ids(rows) && row.id == id && row.updatedAt.Some? {
      assert forall j :: 0 <= j < |rows| ==> rows[j] in rows && more[j] == rows[j];
      assert more[|rows|] == row;
    }
    if FirstIsTimed(more, id) {
      var i :| 0 <= i < |more| && more[i].id == id && more[i].updatedAt.Some?
               && forall j :: 0 <= j < i ==> more[j].id != id;
      if i < |rows| {
        assert rows[i] == more[i] && forall j :: 0 <= j < i ==> rows[j] == more[j];
      } else {
        assert forall j :: 0 <= j < |rows| ==> more[j] == rows[j];
      }
    }
  }

  /** The tracked row has the latest update time of its number, or none if the first row has none. */
  lemma {:induction false} TrackedIsLatest(rows: seq<Permit>, id: Id)
    requires id in Ids(rows)
    ensures var tracked := Tracked(rows, id).value;
            && (tracked.updatedAt.Some? <==> FirstIsTimed(rows, id))
            && (tracked.updatedAt.Some? ==>
                  forall r :: r in rows && r.id == id && r.updatedAt.Some? ==>
                                !Before(tracked.updatedAt.value, r.updatedAt.value))
  {
    hide FirstIsTimed;
    var before, last := rows[..|rows| - 1], rows[|rows| - 1];
    assert rows == before + [last];
    MoreIds(before, last);
    FirstOfMore(before, last, id);
    if id in Ids(before) {
      TrackedIsLatest(before, id);
      FirstTimedIsKnown(before, id);
      LatestOfMore(before, last, id);
    } else {
      forall r | r in rows && r.id == id
        ensures r == last
      {
        assert r in before ==> r.id in Ids(before);
      }
      FirstTimedIsKnown(before, id);
      if last.updatedAt.Some? { NotBeforeItself(last.updatedAt.value); }
    }
  }

  lemma FirstTimedIsKnown(rows: seq<Permit>, id: Id)
    ensures FirstIsTimed(rows, id) ==> id in Ids(rows)
  {
  }

  lemma LatestOfMore(before: seq<Permit>, last: Permit, id: Id)
    requires id in Ids(before)
    requires var tracked := Tracked(before, id).value;
             tracked.updatedAt.Some? ==>
               forall r :: r in before && r.id == id && r.updatedAt.Some? ==>
                             !Before(tracked.updatedAt.value, r.updatedAt.value)
    ensures var earlier, tracked := Tracked(before, id).value, Tracked(before + [last], id).value;
            && (tracked.updatedAt.Some? <==> earlier.updatedAt.Some?)
            && (tracked.updatedAt.Some? ==>
                  forall r :: r in before + [last] && r.id == id && r.updatedAt.Some? ==>
                                !Before(tracked.updatedAt.value, r.updatedAt.value))
  {
    var rows := before + [last];
    assert rows[..|before|] == before;
    var earlier, tracked := Tracked(before, id).value, Tracked(rows, id).value;
    hide Tracked, Before;
    if tracked.updatedAt.Some? {
      forall r | r in rows && r.id == id && r.updatedAt.Some?
        ensures !Before(tracked.updatedAt.value, r.updatedAt.value)
      {
        NotBeforeItself(r.updatedAt.value);
        if r in before && tracked == last && Before(tracked.updatedAt.value, r.updatedAt.value)
           && Before(earlier.updatedAt.value, last.updatedAt.value) {
          BeforeIsTransitive(earlier.updatedAt.value, last.updatedAt.value, r.updatedAt.value);
        }
      }
    }
  }

  /**
   A repeated number is a later version exactly when its first row and this one have update times and this one's
   is after every time of the number so far, and an earlier version exactly when some time so far is after it.
   */
  lemma RolesByTime(before: seq<Permit>, row: Permit)
    requires row.id in Ids(before)
    ensures var timed := FirstIsTimed(before, row.id) && row.updatedAt.Some?;
            && (RoleOf(before, row) == LaterVersion <==>
                timed && forall r :: r in before && r.id == row.id && r.updatedAt.Some? ==>
                                       Before(r.updatedAt.value, row.updatedAt.value))
            && (RoleOf(before, row) == EarlierVersion <==>
                timed && exists r :: r in before && r.id == row.id && r.updatedAt.Some?
                                     && Before(row.updatedAt.value, r.updatedAt.value))
  {
    var tracked := Tracked(before, row.id).value;
    TrackedIsLatest(before, row.id);
    hide Tracked, FirstIsTimed, Before, Ids;
    if tracked.updatedAt.Some? && row.updatedAt.Some? {
      NotBeforeItself(row.updatedAt.value);
      forall r | r in before && r.id == row.id && r.updatedAt.Some?
        ensures Before(tracked.updatedAt.value, row.updatedAt.value) ==>
                  Before(r.updatedAt.value, row.updatedAt.value)
        ensures Before(row.updatedAt.value, r.updatedAt.value) ==>
                  Before(row.updatedAt.value, tracked.updatedAt.value)
        ensures !(Before(tracked.updatedAt.value, row.updatedAt.value)
                  && Before(row.updatedAt.value, tracked.updatedAt.value))
      {
        TimesCompare(tracked.updatedAt.value, r.updatedAt.value, row.updatedAt.value);
      }
    }
  }

  lemma TimesCompare(latest: string, time: string, own: string)
    requires !Before(latest, time)
    ensures Before(latest, own) ==> Before(time, own)
    ensures Before(own, time) ==> Before(own, latest)
    ensures !(Before(latest, own) && Before(own, latest))
  {
    BeforeIsTotal(latest, time);
    if time != latest {
      if Before(latest, own) { BeforeIsTransitive(time, latest, own); }
      if Before(own, time) { BeforeIsTransitive(own, time, latest); }
    }
    if Before(latest, own) && Before(own, latest) {
      BeforeIsTransitive(latest, own, latest);
      NotBeforeItself(latest);
    }
  }

  // ---------------------------------------------------------------------------------------
  // The fold
  // ---------------------------------------------------------------------------------------

  datatype Page = Page(totalCount: nat, rows: seq<Permit>)

  class Profile {
    var rowCount: nat
    var seenIds: set<Id>
    var tracked: map<Id, Permit>
    var selected: map<Id, Permit>
    var duplicateRows: nat
    var identicalDuplicates: nat
    var conflictingDuplicates: nat
    var laterNewer: nat
    var earlierNewer: nat
    var timestampTies: nat
    ghost var rows: seq<Permit>

    constructor ()
      ensures rows == [] && forall fingerprint :: Valid(fingerprint)
    {
      rowCount, seenIds, tracked, selected := 0, {}, map[], map[];
      duplicateRows, identicalDuplicates, conflictingDuplicates := 0, 0, 0;
      laterNewer, earlierNewer, timestampTies, rows := 0, 0, 0, [];
    }

    /** What the counters and dictionaries say about the rows so far. */
    ghost predicate Valid(fingerprint: Fingerprint)
      reads this
    {
      && rowCount == |rows| && seenIds == Ids(rows) && duplicateRows == |rows| - |Ids(rows)|
      && identicalDuplicates + conflictingDuplicates == duplicateRows
      && laterNewer + earlierNewer + timestampTies == conflictingDuplicates
      && CountsRoles()
      && IsSelection(fingerprint, rows, selected) && TracksRows(rows, tracked)
    }

    /** Each counter is the number of rows with its role. */
    ghost predicate CountsRoles()
      reads this
    {
      RolesCounted(rows)
    }

    /** The row takes part in the selection, whether it is a duplicate or not. */
    method SelectRow(fingerprint: Fingerprint, row: Permit)
      requires IsSelection(fingerprint, rows, selected)
      modifies this`selected
      ensures IsSelection(fingerprint, rows + [row], selected)
    {
      hide Outranks, IsSelection, Ids;
      SelectOneMore(fingerprint, rows, selected, row);
      if row.id !in selected || Outranks(fingerprint, row, selected[row.id]) {
        selected := selected[row.id := row];
      }
    }

    /** A row with another content than the tracked one. */
    method CountConflict(row: Permit)
      requires row.id in tracked && TracksRows(rows, tracked) && CountsRoles() && row != tracked[row.id]
      modifies this`conflictingDuplicates, this`laterNewer, this`earlierNewer, this`timestampTies, this`tracked
      ensures TracksRows(rows + [row], tracked) && RolesCounted(rows + [row])
      ensures conflictingDuplicates == old(conflictingDuplicates) + 1
      ensures laterNewer + earlierNewer + timestampTies == old(laterNewer + earlierNewer + timestampTies) + 1
    {
      hide Newer, TracksRows, Ids, RoleOf, RoleCount;
      TrackOneMore(rows, tracked, row);
      conflictingDuplicates := conflictingDuplicates + 1;
      if Newer(row, tracked[row.id]) {
        laterNewer := laterNewer + 1;
        tracked := tracked[row.id := row];
      } else if Newer(tracked[row.id], row) {
        earlierNewer := earlierNewer + 1;
      } else {
        timestampTies := timestampTies + 1;
      }
    }

    /** The counters are right for these rows. */
    ghost predicate RolesCounted(more: seq<Permit>)
      reads this
    {
      && identicalDuplicates == RoleCount(more, Repeat) && laterNewer == RoleCount(more, LaterVersion)
      && earlierNewer == RoleCount(more, EarlierVersion) && timestampTies == RoleCount(more, SameTime)
    }

    /** A row of a known number: identical to the tracked one, or in conflict with it. */
    method CountDuplicate(fingerprint: Fingerprint, row: Permit)
      requires row.id in tracked && TracksRows(rows, tracked) && CountsRoles() && Injective(fingerprint)
      modifies this`duplicateRows, this`identicalDuplicates, this`conflictingDuplicates, this`laterNewer,
               this`earlierNewer, this`timestampTies, this`tracked
      ensures TracksRows(rows + [row], tracked) && RolesCounted(rows + [row])
      ensures duplicateRows == old(duplicateRows) + 1
      ensures identicalDuplicates + conflictingDuplicates == old(identicalDuplicates + conflictingDuplicates) + 1
      ensures laterNewer + earlierNewer + timestampTies - conflictingDuplicates
           == old(laterNewer + earlierNewer + timestampTies - conflictingDuplicates)
    {
      hide Newer, TracksRows, Ids, RoleOf, RoleCount;
      duplicateRows := duplicateRows + 1;
      if fingerprint(tracked[row.id]) == fingerprint(row) {
        identicalDuplicates := identicalDuplicates + 1;
        SameRowIsNotNewer(fingerprint, tracked[row.id], row);
        TrackOneMore(rows, tracked, row);
      } else {
        CountConflict(row);
      }
    }

    method ProcessRow(fingerprint: Fingerprint, row: Permit)
      requires Valid(fingerprint) && Injective(fingerprint)
      modifies this
      ensures Valid(fingerprint) && rows == old(rows) + [row]
    {
      hide Outranks, Newer, IsSelection, TracksRows, Injective, Ids, RoleOf, RoleCount;
      MoreIds(rows, row);
      TrackedAreSeen(rows, tracked);
      SelectRow(fingerprint, row);
      rowCount := rowCount + 1;
      if row.id in seenIds {
        CountDuplicate(fingerprint, row);
      } else {
        TrackOneMore(rows, tracked, row);
        tracked := tracked[row.id := row];
      }
      seenIds := seenIds + {row.id};
      rows := rows + [row];
    }

    /** `process_page`: a page of the announced total and length is folded in, any other is refused. */
    method ProcessPage(fingerprint: Fingerprint, page: Page, totalCount: nat, expectedRows: nat) returns (ok: bool)
      requires Valid(fingerprint) && Injective(fingerprint)
      modifies this
      ensures ok <==> page.totalCount == totalCount && |page.rows| == expectedRows
      ensures Valid(fingerprint) && rows == old(rows) + if ok then page.rows else []
    {
      hide *;
      if page.totalCount != totalCount || |page.rows| != expectedRows {
        return false;
      }
      for k := 0 to |page.rows|
        invariant Valid(fingerprint) && rows == old(rows) + page.rows[..k]
      {
        ProcessRow(fingerprint, page.rows[k]);
        assert page.rows[..k + 1] == page.rows[..k] + [page.rows[k]];
      }
      assert page.rows[..|page.rows|] == page.rows;
      ok := true;
    }
  }

  lemma TrackedAreSeen(rows: seq<Permit>, tracked: map<Id, Permit>)
    requires TracksRows(rows, tracked)
    ensures tracked.Keys == Ids(rows)
  {
  }

  lemma SameRowIsNotNewer(fingerprint: Fingerprint, a: Permit, b: Permit)
    requires Injective(fingerprint) && fingerprint(a) == fingerprint(b)
    ensures !Newer(b, a)
  {
    DoesNotOutrankItself(fingerprint, a);
  }

  // ---------------------------------------------------------------------------------------
  // Pages
  // ---------------------------------------------------------------------------------------

  /** The source: the rows from `start` to `end`, and the total it announces with them. */
  type Source = (nat, nat) -> Page

  function Min(a: nat, b: nat): nat {
    if a <= b then a else b
  }

  /** The page whose first row is `start + 1`; the first page is asked for whole. */
  function PageAt(fetch: Source, pageSize: nat, total: nat, start: nat): Page {
    if start == 0 then fetch(1, pageSize) else fetch(start + 1, Min(start + pageSize, total))
  }

  function ExpectedRows(pageSize: nat, total: nat, start: nat): nat {
    if start <= total then Min(start + pageSize, total) - start else 0
  }

  /** Every page from `start` on announces the total and has its rows. */
  predicate PagesFit(fetch: Source, pageSize: nat, total: nat, start: nat)
    requires pageSize > 0
    decreases total - start
  {
    var page := PageAt(fetch, pageSize, total, start);
    && page.totalCount == total && |page.rows| == ExpectedRows(pageSize, total, start)
    && (start + pageSize < total ==> PagesFit(fetch, pageSize, total, start + pageSize))
  }

  function RowsFrom(fetch: Source, pageSize: nat, total: nat, start: nat): seq<Permit>
    requires pageSize > 0
    decreases total - start
  {
    PageAt(fetch, pageSize, total, start).rows
    + if start + pageSize < total then RowsFrom(fetch, pageSize, total, start + pageSize) else []
  }

  /** The pages tile the announced total: the final completeness check cannot fail. */
  lemma {:induction false} PagesTileTotal(fetch: Source, pageSize: nat, total: nat, start: nat)
    requires pageSize > 0 && PagesFit(fetch, pageSize, total, start) && start <= total
    ensures |RowsFrom(fetch, pageSize, total, start)| == total - start
    decreases total - start
  {
    if start + pageSize < total {
      PagesTileTotal(fetch, pageSize, total, start + pageSize);
    }
  }

  /** What a finished profile says about its rows. */
  datatype Summary = Summary(
    totalCount: nat, uniqueIds: nat, duplicateRows: nat, identicalDuplicates: nat, conflictingDuplicates: nat,
    laterNewer: nat, earlierNewer: nat, timestampTies: nat, gatePassed: bool, selected: map<Id, Permit>)

  const PAGE_SIZE_REFUSED: Result<Summary> := Error("page_size is outside the verified API bounds")
  const EMPTY_CATEGORY_REFUSED: Result<Summary> := Error("candidate_types must contain non-empty exact categories")
  const REPEATED_CATEGORY_REFUSED: Result<Summary> := Error("candidate_types must be unique")
  const PAGE_REFUSED: Result<Summary> := Error("a page does not match the announced total")

  ghost predicate Summarizes(fingerprint: Fingerprint, rows: seq<Permit>, s: Summary) {
    && s.totalCount == |rows| && s.uniqueIds == |Ids(rows)| && s.duplicateRows == |rows| - |Ids(rows)|
    && s.identicalDuplicates + s.conflictingDuplicates == s.duplicateRows
    && s.laterNewer + s.earlierNewer + s.timestampTies == s.conflictingDuplicates
    && s.identicalDuplicates == RoleCount(rows, Repeat) && s.laterNewer == RoleCount(rows, LaterVersion)
    && s.earlierNewer == RoleCount(rows, EarlierVersion) && s.timestampTies == RoleCount(rows, SameTime)
    && (s.gatePassed <==> DistinctNumbers(rows))
    && IsSelection(fingerprint, rows, s.selected)
  }

  predicate DistinctNumbers(rows: seq<Permit>) {
    forall i, j :: 0 <= i < j < |rows| ==> rows[i].id != rows[j].id
  }

  lemma {:induction false} DistinctIds(rows: seq<Permit>)
    ensures |Ids(rows)| <= |rows|
    ensures |Ids(rows)| == |rows| <==> DistinctNumbers(rows)
  {
    hide Ids, DistinctNumbers;
    if rows == [] {
      NoIds();
    } else {
      var before, last := rows[..|rows| - 1], rows[|rows| - 1];
      assert rows == before + [last];
      DistinctIds(before);
      MoreIds(before, last);
      DistinctAppend(before, last);
    }
  }

  lemma NoIds()
    ensures Ids([]) == {} && DistinctNumbers([])
  {
  }

  lemma DistinctAppend(before: seq<Permit>, last: Permit)
    ensures DistinctNumbers(before + [last]) <==> DistinctNumbers(before) && last.id !in Ids(before)
  {
    var rows := before + [last];
    if last.id in Ids(before) {
      var r :| r in before && r.id == last.id;
      var i :| 0 <= i < |before| && before[i] == r;
      assert rows[i].id == rows[|before|].id;
    } else {
      assert forall i :: 0 <= i < |before| ==> before[i] in before && before[i].id in Ids(before);
    }
    if !DistinctNumbers(before) {
      var i, j :| 0 <= i < j < |before| && before[i].id == before[j].id;
      assert rows[i].id == rows[j].id;
    }
  }

  /** The page size is one the source accepts. */
  predicate AllowedPageSize(pageSize: int) {
    1 <= pageSize <= MAX_PAGE_SIZE
  }

  predicate NonEmptyCategories(candidateTypes: seq<string>) {
    candidateTypes != [] && forall i :: 0 <= i < |candidateTypes| ==> !IsBlank(candidateTypes[i])
  }

  predicate UniqueCategories(candidateTypes: seq<string>) {
    forall i, j :: 0 <= i < j < |candidateTypes| ==> candidateTypes[i] != candidateTypes[j]
  }

  /** Putting the categories into a set loses none exactly when they are unique. */
  lemma {:induction false} UniqueMembers(categories: seq<string>)
    ensures |set c | c in categories| <= |categories|
    ensures |set c | c in categories| == |categories| <==> UniqueCategories(categories)
  {
    if categories == [] {
    } else {
      var before, last := categories[..|categories| - 1], categories[|categories| - 1];
      assert categories == before + [last];
      UniqueMembers(before);
      assert (set c | c in categories) == (set c | c in before) + {last};
      if last in before {
        var i :| 0 <= i < |before| && before[i] == last;
        assert categories[i] == categories[|before|];
      }
    }
  }

  /**
   The whole profile: refused exactly when an argument or a page does not fit, and otherwise true of all rows.
   The arguments are checked in the order of the source, and before any page is fetched.
   */
  method BuildPermitProfile(fetch: Source, pageSize: int, candidateTypes: seq<string>, fingerprint: Fingerprint)
      returns (result: Result<Summary>)
    requires Injective(fingerprint)
    ensures result.Ok? <==>
            && AllowedPageSize(pageSize) && NonEmptyCategories(candidateTypes) && UniqueCategories(candidateTypes)
            && PagesFit(fetch, pageSize, fetch(1, pageSize).totalCount, 0)
    ensures result == PAGE_SIZE_REFUSED <==> !AllowedPageSize(pageSize)
    ensures result == EMPTY_CATEGORY_REFUSED <==> AllowedPageSize(pageSize) && !NonEmptyCategories(candidateTypes)
    ensures result == REPEATED_CATEGORY_REFUSED <==>
            AllowedPageSize(pageSize) && NonEmptyCategories(candidateTypes) && !UniqueCategories(candidateTypes)
    ensures result.Ok? ==>
              Summarizes(fingerprint, RowsFrom(fetch, pageSize, fetch(1, pageSize).totalCount, 0), result.value)
  {
    hide Injective, IsSelection, TracksRows, Ids, PagesFit, RowsFrom, DistinctNumbers, IsBlank, UniqueCategories;
    if !AllowedPageSize(pageSize) {
      return PAGE_SIZE_REFUSED;
    }
    if candidateTypes == [] || exists i :: 0 <= i < |candidateTypes| && IsBlank(candidateTypes[i]) {
      return EMPTY_CATEGORY_REFUSED;
    }
    UniqueMembers(candidateTypes);
    if |set c | c in candidateTypes| != |candidateTypes| {
      return REPEATED_CATEGORY_REFUSED;
    }
    var total := fetch(1, pageSize).totalCount;
    var profile := new Profile();
    var ok := ReadPages(profile, fetch, pageSize, total, fingerprint);
    if !ok {
      return PAGE_REFUSED;
    }
    PagesTileTotal(fetch, pageSize, total, 0);
    DistinctIds(profile.rows);
    return Ok(Summary(total, |profile.seenIds|, profile.duplicateRows,
                      profile.identicalDuplicates, profile.conflictingDuplicates,
                      profile.laterNewer, profile.earlierNewer, profile.timestampTies,
                      profile.duplicateRows == 0 && |profile.seenIds| == total, profile.selected));
  }

  /** The loop over the pages. */
  method ReadPages(
      profile: Profile, fetch: Source, pageSize: nat, total: nat, fingerprint: Fingerprint) returns (ok: bool)
    requires pageSize > 0 && Injective(fingerprint) && profile.Valid(fingerprint) && profile.rows == []
    modifies profile
    ensures ok <==> PagesFit(fetch, pageSize, total, 0)
    ensures profile.Valid(fingerprint) && (ok ==> profile.rows == RowsFrom(fetch, pageSize, total, 0))
  {
    hide *;
    var start: nat := 0;
    var more := true;
    while more
      invariant profile.Valid(fingerprint)
      invariant more ==> (PagesFit(fetch, pageSize, total, 0) <==> PagesFit(fetch, pageSize, total, start))
      invariant more ==> profile.rows + RowsFrom(fetch, pageSize, total, start) == RowsFrom(fetch, pageSize, total, 0)
      invariant !more ==> PagesFit(fetch, pageSize, total, 0) && profile.rows == RowsFrom(fetch, pageSize, total, 0)
      decreases more, total - start
    {
      PagesUnfold(fetch, pageSize, total, start);
      ok := profile.ProcessPage(fingerprint, PageAt(fetch, pageSize, total, start), total,
                                ExpectedRows(pageSize, total, start));
      if !ok {
        return;
      }
      more := start + pageSize < total;
      start := start + pageSize;
    }
    ok := true;
  }

  lemma PagesUnfold(fetch: Source, pageSize: nat, total: nat, start: nat)
    requires pageSize > 0
    ensures var page := PageAt(fetch, pageSize, total, start);
            && (PagesFit(fetch, pageSize, total, start) <==>
                && page.totalCount == total && |page.rows| == ExpectedRows(pageSize, total, start)
                && (start + pageSize < total ==> PagesFit(fetch, pageSize, total, start + pageSize)))
            && RowsFrom(fetch, pageSize, total, start)
               == page.rows
                  + if start + pageSize < total then RowsFrom(fetch, pageSize, total, start + pageSize) else []
  {
  }
}
