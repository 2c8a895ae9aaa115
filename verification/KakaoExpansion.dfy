/**
 The Kakao catalogue expansion (`seed_kakao_catalog_expansion` in
 backend/scripts/seed_kakao_catalog_expansion.py): display refreshes with a quarantine for large moves,
 and new cafes owned by their Kakao place.
 */
module KakaoExpansion {
  import opened Outcomes
  import opened ProviderSeed
  import ProviderSeedSession

  const KAKAO := "kakao"
  const SOURCE_MATCH_METHOD := "source_primary"
  const LARGE_MOVE_M := 250.0
  const APPLY_ABSOLUTE_MAX_CANDIDATES := 40_000
  const REFRESH_ABSOLUTE_MAX_LARGE_MOVES := 40_000

  function PlaceUrl(placeId: string): string {
    "https://place.map.kakao.com/" + placeId
  }

  /**
   New display columns for a cafe, the source columns a Kakao-origin cafe also takes, and how far it moves;
   `fits` says that no value is longer than its column.
   */
  datatype Refresh = Refresh(cafeId: nat, display: Columns, source: Columns, movementM: real, fits: bool)

  /** A Kakao place that becomes a cafe of its own. */
  datatype NewCafe = NewCafe(placeId: string, columns: Columns, fits: bool)

  /** What the refresh and expansion builders select from a snapshot. */
  datatype Plan = Plan(refreshes: seq<Refresh>, seenCafeIds: seq<nat>, candidates: seq<NewCafe>)

  /** The bounds an operator gives. */
  datatype Bounds = Bounds(maxCandidates: Option<int>, maxLargeMoves: Option<int>)

  // ---------------------------------------------------------------------------------------
  // Ownership
  // ---------------------------------------------------------------------------------------

  /** The row that makes a Kakao-origin cafe the owner of its place. */
  predicate OwnsPlace(p: Place, c: Cafe) {
    && p.key == PlaceKey(KAKAO, c.origin.sourceId) && p.cafeId == c.id && p.active
    && p.detailUrl == PlaceUrl(c.origin.sourceId) && p.matchMethod == SOURCE_MATCH_METHOD
  }

  /** The test made for each Kakao-origin cafe before anything is planned. */
  predicate KakaoOwned(places: seq<Place>, c: Cafe) {
    var place := FindPlace(places, PlaceKey(KAKAO, c.origin.sourceId));
    place.Some? && FindCafeProvider(places, c.id, KAKAO) == place && OwnsPlace(place.value, c)
  }

  predicate AllOwned(db: Db) {
    forall i :: 0 <= i < |db.cafes| && db.cafes[i].origin.provider == KAKAO ==> KakaoOwned(db.places, db.cafes[i])
  }

  lemma OwnedByRow(places: seq<Place>, c: Cafe)
    requires UniqueKeys(places) && UniqueCafeProviders(places)
    ensures KakaoOwned(places, c) <==> exists p :: p in places && OwnsPlace(p, c)
  {
    if p :| p in places && OwnsPlace(p, c) {
      FindPlaceIsUnique(places, p);
      var owned := FindCafeProvider(places, c.id, KAKAO).value;
      var i :| 0 <= i < |places| && places[i] == p;
      var j :| 0 <= j < |places| && places[j] == owned;
    }
  }

  // ---------------------------------------------------------------------------------------
  // The quarantine
  // ---------------------------------------------------------------------------------------

  function LargeMoves(refreshes: seq<Refresh>): seq<Refresh> {
    if refreshes == [] then []
    else
      var last := refreshes[|refreshes| - 1];
      LargeMoves(refreshes[..|refreshes| - 1]) + (if last.movementM > LARGE_MOVE_M then [last] else [])
  }

  predicate LargeMovesAllowed(plan: Plan, bounds: Bounds) {
    bounds.maxLargeMoves.Some? && |LargeMoves(plan.refreshes)| <= bounds.maxLargeMoves.value
  }

  function Quarantined(plan: Plan, bounds: Bounds): set<nat> {
    if LargeMovesAllowed(plan, bounds) then {} else set r | r in LargeMoves(plan.refreshes) :: r.cafeId
  }

  function Applicable(refreshes: seq<Refresh>, quarantined: set<nat>): seq<Refresh> {
    if refreshes == [] then []
    else
      var last := refreshes[|refreshes| - 1];
      Applicable(refreshes[..|refreshes| - 1], quarantined) + (if last.cafeId in quarantined then [] else [last])
  }

  // ---------------------------------------------------------------------------------------
  // Acceptance
  // ---------------------------------------------------------------------------------------

  predicate DistinctRefreshes(refreshes: seq<Refresh>) {
    forall i, j :: 0 <= i < j < |refreshes| ==> refreshes[i].cafeId != refreshes[j].cafeId
  }

  predicate DistinctPlaces(candidates: seq<NewCafe>) {
    forall i, j :: 0 <= i < j < |candidates| ==> candidates[i].placeId != candidates[j].placeId
  }

  /** What the builders guarantee: one refresh and one candidate per id, refreshes only of cafes linked to Kakao. */
  predicate PlanFits(db: Db, plan: Plan) {
    && DistinctRefreshes(plan.refreshes) && DistinctPlaces(plan.candidates)
    && (forall r :: r in plan.refreshes ==> r.cafeId in plan.seenCafeIds)
    && (forall id :: id in plan.seenCafeIds ==>
                       FindCafeById(db.cafes, id).Some? && FindCafeProvider(db.places, id, KAKAO).Some?)
  }

  predicate BoundOk(bound: Option<int>, limit: int, apply: bool) {
    (bound.Some? ==> 0 <= bound.value <= limit) && (apply ==> bound.Some?)
  }

  predicate CollidesWithStored(db: Db, c: NewCafe) {
    FindCafe(db.cafes, Origin(KAKAO, c.placeId)).Some? || FindPlace(db.places, PlaceKey(KAKAO, c.placeId)).Some?
  }

  /** Every check a run makes before it writes. */
  predicate Accepts(db: Db, plan: Plan, bounds: Bounds, apply: bool) {
    && BoundOk(bounds.maxCandidates, APPLY_ABSOLUTE_MAX_CANDIDATES, apply)
    && BoundOk(bounds.maxLargeMoves, REFRESH_ABSOLUTE_MAX_LARGE_MOVES, apply)
    && ConstraintsHold(db) && AllOwned(db)
    && (bounds.maxCandidates.Some? ==> |plan.candidates| <= bounds.maxCandidates.value)
    && (forall i :: 0 <= i < |plan.candidates| ==>
          !CollidesWithStored(db, plan.candidates[i]) && plan.candidates[i].fits)
    && forall r :: r in Applicable(plan.refreshes, Quarantined(plan, bounds)) ==> r.fits
  }

  // ---------------------------------------------------------------------------------------
  // The writes
  // ---------------------------------------------------------------------------------------

  function FindRefresh(refreshes: seq<Refresh>, cafeId: nat): (found: Option<Refresh>)
    ensures found.Some? ==> found.value in refreshes && found.value.cafeId == cafeId
    ensures found.None? ==> forall r :: r in refreshes ==> r.cafeId != cafeId
  {
    if refreshes == [] then None
    else
      var last := refreshes[|refreshes| - 1];
      if last.cafeId == cafeId then Some(last) else FindRefresh(refreshes[..|refreshes| - 1], cafeId)
  }

  function Refreshed(c: Cafe, r: Refresh): Cafe {
    c.(columns := if c.origin.provider == KAKAO then c.columns + r.display + r.source else c.columns + r.display)
  }

  function RefreshedRow(refreshes: seq<Refresh>, c: Cafe): Cafe {
    match FindRefresh(refreshes, c.id)
    case None => c
    case Some(r) => Refreshed(c, r)
  }

  function RefreshedRows(refreshes: seq<Refresh>, cafes: seq<Cafe>): (rows: seq<Cafe>)
    ensures |rows| == |cafes| && forall i :: 0 <= i < |cafes| ==> rows[i] == RefreshedRow(refreshes, cafes[i])
  {
    seq(|cafes|, i requires 0 <= i < |cafes| => RefreshedRow(refreshes, cafes[i]))
  }

  predicate Renews(seen: seq<nat>, quarantined: set<nat>, p: Place) {
    p.key.provider == KAKAO && p.cafeId in seen && p.cafeId !in quarantined
  }

  function RenewedRow(seen: seq<nat>, quarantined: set<nat>, now: int, p: Place): Place {
    if !Renews(seen, quarantined, p) then p
    else p.(detailUrl := PlaceUrl(p.key.placeId), lastSeenAt := now, verifiedAt := now)
  }

  function RenewedRows(seen: seq<nat>, quarantined: set<nat>, now: int, places: seq<Place>): (rows: seq<Place>)
    ensures |rows| == |places| && forall i :: 0 <= i < |places| ==>
              rows[i] == RenewedRow(seen, quarantined, now, places[i])
  {
    seq(|places|, i requires 0 <= i < |places| => RenewedRow(seen, quarantined, now, places[i]))
  }

  function CreatedCafes(candidates: seq<NewCafe>, nextId: nat): (rows: seq<Cafe>)
    ensures |rows| == |candidates|
    ensures forall k :: 0 <= k < |rows| ==>
              rows[k] == Cafe(nextId + k, Origin(KAKAO, candidates[k].placeId), candidates[k].columns)
  {
    seq(|candidates|, k requires 0 <= k < |candidates| =>
      Cafe(nextId + k, Origin(KAKAO, candidates[k].placeId), candidates[k].columns))
  }

  function CreatedPlace(c: NewCafe, id: nat, cafeId: nat, now: int): Place {
    Place(id, cafeId, PlaceKey(KAKAO, c.placeId), PlaceUrl(c.placeId), true, SOURCE_MATCH_METHOD, Some(0.0), now, now)
  }

  function CreatedPlaces(candidates: seq<NewCafe>, nextId: nat, firstCafeId: nat, now: int): (rows: seq<Place>)
    ensures |rows| == |candidates|
    ensures forall k :: 0 <= k < |rows| ==> rows[k] == CreatedPlace(candidates[k], nextId + k, firstCafeId + k, now)
  {
    seq(|candidates|, k requires 0 <= k < |candidates| => CreatedPlace(candidates[k], nextId + k, firstCafeId + k, now))
  }

  /** The tables after an applied plan. */
  function Expanded(db: Db, plan: Plan, bounds: Bounds, now: int): Db {
    var quarantined := Quarantined(plan, bounds);
    Db(RefreshedRows(Applicable(plan.refreshes, quarantined), db.cafes) + CreatedCafes(plan.candidates, db.nextCafeId),
       RenewedRows(plan.seenCafeIds, quarantined, now, db.places)
       + CreatedPlaces(plan.candidates, db.nextPlaceId, db.nextCafeId, now),
       db.nextCafeId + |plan.candidates|, db.nextPlaceId + |plan.candidates|)
  }

  // ---------------------------------------------------------------------------------------
  // What a run keeps
  // ---------------------------------------------------------------------------------------

  lemma RefreshedKeepsIdentity(refreshes: seq<Refresh>, c: Cafe)
    ensures var r := RefreshedRow(refreshes, c); r.id == c.id && r.origin == c.origin
  {
    hide FindRefresh;
  }

  lemma RenewedKeepsIdentity(seen: seq<nat>, quarantined: set<nat>, now: int, p: Place)
    ensures var q := RenewedRow(seen, quarantined, now, p);
            q.id == p.id && q.cafeId == p.cafeId && q.key == p.key && q.active == p.active
            && q.matchMethod == p.matchMethod
  {
  }

  /** The stored rows stay keyed, and the created ones clash with none of them. */
  lemma ExpandedCafesKeyed(db: Db, plan: Plan, bounds: Bounds, now: int)
    requires KeyedDb(db) && PlanFits(db, plan) && UniqueOrigins(db.cafes)
    requires forall i :: 0 <= i < |plan.candidates| ==> !CollidesWithStored(db, plan.candidates[i])
    ensures var after := Expanded(db, plan, bounds, now);
            && UniqueOrigins(after.cafes) && UniqueCafeIds(after.cafes)
            && forall i :: 0 <= i < |after.cafes| ==> after.cafes[i].id < after.nextCafeId
  {
    hide RefreshedRow, Quarantined, Applicable, RenewedRows, CreatedPlaces, FindCafeById, FindCafeProvider,
         FindPlace, FindCafe;
    var stored := RefreshedRows(Applicable(plan.refreshes, Quarantined(plan, bounds)), db.cafes);
    var created := CreatedCafes(plan.candidates, db.nextCafeId);
    forall i | 0 <= i < |stored|
      ensures stored[i].origin == db.cafes[i].origin && stored[i].id == db.cafes[i].id
    {
      RefreshedKeepsIdentity(Applicable(plan.refreshes, Quarantined(plan, bounds)), db.cafes[i]);
    }
    forall i, k | 0 <= i < |stored| && 0 <= k < |created|
      ensures stored[i].origin != created[k].origin && stored[i].id != created[k].id
    {
      assert db.cafes[i] in db.cafes;
    }
    AppendCafes(stored, created);
  }

  lemma ExpandedPlacesKeyed(db: Db, plan: Plan, bounds: Bounds, now: int)
    requires KeyedDb(db) && PlanFits(db, plan) && UniqueKeys(db.places) && UniqueCafeProviders(db.places)
    requires forall i :: 0 <= i < |plan.candidates| ==> !CollidesWithStored(db, plan.candidates[i])
    ensures var after := Expanded(db, plan, bounds, now);
            && UniqueKeys(after.places) && UniqueCafeProviders(after.places) && UniquePlaceIds(after.places)
            && forall i :: 0 <= i < |after.places| ==> after.places[i].id < after.nextPlaceId
  {
    hide RenewedRow, Quarantined, Applicable, RefreshedRows, CreatedCafes, FindCafeProvider, FindPlace, FindCafe,
         FindCafeById;
    var quarantined := Quarantined(plan, bounds);
    var stored := RenewedRows(plan.seenCafeIds, quarantined, now, db.places);
    var created := CreatedPlaces(plan.candidates, db.nextPlaceId, db.nextCafeId, now);
    forall i | 0 <= i < |stored|
      ensures stored[i].id == db.places[i].id && stored[i].cafeId == db.places[i].cafeId
              && stored[i].key == db.places[i].key
    {
      RenewedKeepsIdentity(plan.seenCafeIds, quarantined, now, db.places[i]);
    }
    forall i, k | 0 <= i < |stored| && 0 <= k < |created|
      ensures PlacesApart(stored[i], created[k])
    {
      assert db.places[i] in db.places;
      var owner := FindCafeById(db.cafes, db.places[i].cafeId).value;
      assert owner in db.cafes;
    }
    AppendPlaces(stored, created);
  }

  /**
   An applied plan keeps every database constraint, and every Kakao-origin cafe, old or new, owns its place:
   the ownership test of the next run passes again.
   */
  lemma ExpansionKeepsOwnership(db: Db, plan: Plan, bounds: Bounds, now: int)
    requires KeyedDb(db) && PlanFits(db, plan) && Accepts(db, plan, bounds, true)
    ensures var after := Expanded(db, plan, bounds, now); KeyedDb(after) && ConstraintsHold(after) && AllOwned(after)
  {
    hide FindCafe, FindPlace, FindCafeById, FindCafeProvider, CollidesWithStored, RefreshedRow, RenewedRow,
         Quarantined, Applicable, UniqueKeys, UniqueCafeProviders, UniqueCafeIds, UniqueOrigins, UniquePlaceIds,
         KakaoOwned, OwnsPlace;
    var after := Expanded(db, plan, bounds, now);
    ExpandedCafesKeyed(db, plan, bounds, now);
    ExpandedPlacesKeyed(db, plan, bounds, now);
    forall i | 0 <= i < |after.places|
      ensures FindCafeById(after.cafes, after.places[i].cafeId).Some?
    {
      OwnerRowExists(db, plan, bounds, now, i);
    }
    forall i | 0 <= i < |after.cafes| && after.cafes[i].origin.provider == KAKAO
      ensures KakaoOwned(after.places, after.cafes[i])
    {
      OwnerRowStays(db, plan, bounds, now, i);
      OwnedByRow(after.places, after.cafes[i]);
    }
  }

  lemma OwnerRowExists(db: Db, plan: Plan, bounds: Bounds, now: int, i: nat)
    requires KeyedDb(db) && i < |Expanded(db, plan, bounds, now).places|
    ensures var after := Expanded(db, plan, bounds, now); FindCafeById(after.cafes, after.places[i].cafeId).Some?
  {
    hide FindCafeById, RefreshedRow, RenewedRow, Quarantined, Applicable;
    var quarantined, after := Quarantined(plan, bounds), Expanded(db, plan, bounds, now);
    if i < |db.places| {
      RenewedKeepsIdentity(plan.seenCafeIds, quarantined, now, db.places[i]);
      var owner := FindCafeById(db.cafes, db.places[i].cafeId).value;
      var k :| 0 <= k < |db.cafes| && db.cafes[k] == owner;
      RefreshedKeepsIdentity(Applicable(plan.refreshes, quarantined), owner);
      assert after.cafes[k] in after.cafes;
    } else {
      assert after.cafes[|db.cafes| + (i - |db.places|)] in after.cafes;
    }
  }

  lemma OwnerRowStays(db: Db, plan: Plan, bounds: Bounds, now: int, i: nat)
    requires ConstraintsHold(db) && AllOwned(db)
    requires var after := Expanded(db, plan, bounds, now); i < |after.cafes| && after.cafes[i].origin.provider == KAKAO
    ensures var after := Expanded(db, plan, bounds, now); exists p :: p in after.places && OwnsPlace(p, after.cafes[i])
  {
    hide RefreshedRow, Quarantined, Applicable, KakaoOwned, UniqueKeys, UniqueCafeProviders, UniqueOrigins;
    var quarantined, after := Quarantined(plan, bounds), Expanded(db, plan, bounds, now);
    if i < |db.cafes| {
      RefreshedKeepsIdentity(Applicable(plan.refreshes, quarantined), db.cafes[i]);
      OwnedByRow(db.places, db.cafes[i]);
      var p :| p in db.places && OwnsPlace(p, db.cafes[i]);
      var j :| 0 <= j < |db.places| && db.places[j] == p;
      assert OwnsPlace(after.places[j], after.cafes[i]) && after.places[j] in after.places;
    } else {
      var k := i - |db.cafes|;
      assert OwnsPlace(after.places[|db.places| + k], after.cafes[i]) && after.places[|db.places| + k] in after.places;
    }
  }

  lemma {:induction false} LargeMovesMembers(refreshes: seq<Refresh>)
    ensures forall r :: r in LargeMoves(refreshes) <==> r in refreshes && r.movementM > LARGE_MOVE_M
  {
    if refreshes != [] {
      assert refreshes == refreshes[..|refreshes| - 1] + [refreshes[|refreshes| - 1]];
      LargeMovesMembers(refreshes[..|refreshes| - 1]);
    }
  }

  lemma {:induction false} ApplicableMembers(refreshes: seq<Refresh>, quarantined: set<nat>)
    ensures forall r :: r in Applicable(refreshes, quarantined) <==> r in refreshes && r.cafeId !in quarantined
  {
    if refreshes != [] {
      assert refreshes == refreshes[..|refreshes| - 1] + [refreshes[|refreshes| - 1]];
      ApplicableMembers(refreshes[..|refreshes| - 1], quarantined);
    }
  }

  /**
   Column by column: a Kakao-origin row takes the source columns, every row the other display columns, and what
   the refresh does not carry for the row stays as it was.
   */
  ghost predicate TakesRefresh(after: Cafe, c: Cafe, r: Refresh) {
    var takesSource := c.origin.provider == "kakao";
    && after.id == c.id && after.origin == c.origin
    && (forall column :: column in after.columns <==>
                           column in c.columns || column in r.display || (takesSource && column in r.source))
    && forall column :: column in after.columns ==>
                          after.columns[column] ==
                          if takesSource && column in r.source then r.source[column]
                          else if column in r.display then r.display[column] else c.columns[column]
  }

  /**
   Large moves are applied all together, when the operator's bound allows their number, or not at all; then
   the cafe rows and Kakao links they name are left exactly as they were, and every other refresh still applies.
   */
  lemma LargeMovesAreAllOrNothing(db: Db, plan: Plan, bounds: Bounds, now: int, i: nat)
    requires PlanFits(db, plan) && i < |db.cafes|
    ensures var c, after := db.cafes[i], Expanded(db, plan, bounds, now);
            var found := FindRefresh(plan.refreshes, c.id);
            && (found.Some? && (found.value.movementM <= 250.0 || LargeMovesAllowed(plan, bounds)) ==>
                  TakesRefresh(after.cafes[i], c, found.value))
            && (found.Some? && found.value.movementM > 250.0 && !LargeMovesAllowed(plan, bounds) ==>
                  && after.cafes[i] == c
                  && forall j :: 0 <= j < |db.places| && db.places[j].cafeId == c.id ==>
                       after.places[j] == db.places[j])
            && (found.None? ==> after.cafes[i] == c)
  {
    hide FindCafeById, FindCafeProvider, FindRefresh, LargeMoves, Applicable, Refreshed, TakesRefresh;
    var c, quarantined := db.cafes[i], Quarantined(plan, bounds);
    LargeMovesMembers(plan.refreshes);
    ApplicableMembers(plan.refreshes, quarantined);
    var found, applied := FindRefresh(plan.refreshes, c.id), FindRefresh(Applicable(plan.refreshes, quarantined), c.id);
    if found.Some? {
      OneRefreshPerCafe(plan.refreshes, found.value);
      if found.value.movementM > LARGE_MOVE_M && !LargeMovesAllowed(plan, bounds) {
        assert found.value in LargeMoves(plan.refreshes);
        assert c.id in quarantined;
      } else {
        assert c.id !in quarantined;
        assert found.value in Applicable(plan.refreshes, quarantined);
        RefreshIsTaken(c, found.value);
      }
    }
  }

  lemma RefreshIsTaken(c: Cafe, r: Refresh)
    ensures TakesRefresh(Refreshed(c, r), c, r)
  {
  }

  /** A cafe whose only refresh is a large move that the operator's bound does not allow. */
  predicate Frozen(plan: Plan, bounds: Bounds, cafeId: nat) {
    && !LargeMovesAllowed(plan, bounds)
    && exists r :: r in plan.refreshes && r.cafeId == cafeId && r.movementM > 250.0
  }

  lemma QuarantineFreezes(plan: Plan, bounds: Bounds, cafeId: nat)
    ensures cafeId in Quarantined(plan, bounds) <==> Frozen(plan, bounds, cafeId)
  {
    hide LargeMoves;
    LargeMovesMembers(plan.refreshes);
    if !LargeMovesAllowed(plan, bounds) {
      assert forall r :: r in LargeMoves(plan.refreshes) ==> r.cafeId in Quarantined(plan, bounds);
    }
  }

  /**
   Every Kakao link of a seen cafe that is not frozen ends with the address of its place, seen and verified now;
   nothing else of it changes, and no other link changes at all.
   */
  lemma SeenLinksAreRenewed(db: Db, plan: Plan, bounds: Bounds, now: int, j: nat)
    requires j < |db.places|
    ensures var p, q := db.places[j], Expanded(db, plan, bounds, now).places[j];
            if p.key.provider == "kakao" && p.cafeId in plan.seenCafeIds && !Frozen(plan, bounds, p.cafeId) then
              && q.detailUrl == "https://place.map.kakao.com/" + p.key.placeId
              && q.lastSeenAt == now && q.verifiedAt == now
              && q.id == p.id && q.cafeId == p.cafeId && q.key == p.key && q.active == p.active
              && q.matchMethod == p.matchMethod && q.matchDistanceM == p.matchDistanceM
            else q == p
  {
    hide Quarantined, Frozen, Applicable;
    QuarantineFreezes(plan, bounds, db.places[j].cafeId);
  }

  /** Every candidate becomes one cafe of Kakao origin with its columns, and one link that this cafe owns. */
  lemma CandidatesBecomeOwners(db: Db, plan: Plan, bounds: Bounds, now: int, k: nat)
    requires k < |plan.candidates|
    ensures var after, candidate := Expanded(db, plan, bounds, now), plan.candidates[k];
            && |after.cafes| == |db.cafes| + |plan.candidates| && |after.places| == |db.places| + |plan.candidates|
            && var c, p := after.cafes[|db.cafes| + k], after.places[|db.places| + k];
               && c.origin == Origin("kakao", candidate.placeId) && c.columns == candidate.columns
               && p.cafeId == c.id && p.key == PlaceKey("kakao", candidate.placeId) && p.active
               && p.detailUrl == "https://place.map.kakao.com/" + candidate.placeId
               && p.matchMethod == "source_primary" && p.matchDistanceM == Some(0.0)
               && p.verifiedAt == now && p.lastSeenAt == now
  {
    hide Quarantined, Applicable, RenewedRow, RefreshedRow;
  }

  lemma OneRefreshPerCafe(refreshes: seq<Refresh>, r: Refresh)
    requires DistinctRefreshes(refreshes) && r in refreshes
    ensures forall q :: q in refreshes && q.cafeId == r.cafeId ==> q == r
  {
    forall q | q in refreshes && q.cafeId == r.cafeId
      ensures q == r
    {
      var i :| 0 <= i < |refreshes| && refreshes[i] == r;
      var j :| 0 <= j < |refreshes| && refreshes[j] == q;
    }
  }

  // ---------------------------------------------------------------------------------------
  // The run
  // ---------------------------------------------------------------------------------------

  /** One more refresh writes one row, which no earlier one has written. */
  lemma NextRefreshWrites(before: seq<Refresh>, r: Refresh, stored: seq<Cafe>, byId: map<nat, nat>)
    requires DistinctRefreshes(before + [r]) && UniqueCafeIds(stored) && r.cafeId in byId
    requires ProviderSeedSession.IndexesRows(byId, stored, ProviderSeedSession.CafeIdKey)
    ensures var rows, i := RefreshedRows(before, stored), byId[r.cafeId];
            && i < |stored| && rows[i] == stored[i]
            && var shown := stored[i].columns + r.display;
               RefreshedRows(before + [r], stored) ==
               rows[i := stored[i].(columns := if stored[i].origin.provider == KAKAO then shown + r.source else shown)]
  {
    var i := byId[r.cafeId];
    assert ProviderSeedSession.CafeIdKey(stored[i]) == r.cafeId;
    assert (before + [r])[..|before|] == before;
    forall k | 0 <= k < |before|
      ensures before[k].cafeId != r.cafeId
    {
      assert (before + [r])[k] == before[k] && (before + [r])[|before|] == r;
    }
    forall j | 0 <= j < |stored| && j != i
      ensures stored[j].id != r.cafeId
    {
    }
  }

  lemma NoRefreshes(stored: seq<Cafe>)
    ensures RefreshedRows([], stored) == stored
  {
  }

  /** One more seen cafe renews its Kakao link, unless it is quarantined. */
  lemma NextSeenRenews(
      before: seq<nat>, id: nat, quarantined: set<nat>, now: int, stored: seq<Place>, byCafe: map<(nat, string), nat>)
    requires UniqueCafeProviders(stored) && (id, KAKAO) in byCafe
    requires ProviderSeedSession.IndexesRows(byCafe, stored, ProviderSeedSession.CafeProviderOf)
    ensures var rows, i := RenewedRows(before, quarantined, now, stored), byCafe[(id, KAKAO)];
            && i < |stored| && rows[i].key == stored[i].key
            && RenewedRows(before + [id], quarantined, now, stored)
               == if id in quarantined then rows
                  else
                    var url := PlaceUrl(rows[i].key.placeId);
                    rows[i := rows[i].(detailUrl := url, lastSeenAt := now, verifiedAt := now)]
  {
    var i := byCafe[(id, KAKAO)];
    assert ProviderSeedSession.CafeProviderOf(stored[i]) == (id, KAKAO);
    var rows := RenewedRows(before, quarantined, now, stored);
    var more := RenewedRows(before + [id], quarantined, now, stored);
    forall j | 0 <= j < |stored| && (j != i || id in quarantined)
      ensures more[j] == rows[j]
    {
    }
  }

  lemma NoneSeen(quarantined: set<nat>, now: int, stored: seq<Place>)
    ensures RenewedRows([], quarantined, now, stored) == stored
  {
  }

  datatype Planned = Planned(
    candidateCount: nat, plannedRefreshes: nat, largeMoves: nat, largeMovesPlanned: nat, largeMovesQuarantined: nat,
    insertedCafes: nat, insertedPlaces: nat, refreshedCafes: nat)

  function ExpansionReport(plan: Plan, bounds: Bounds, apply: bool): Planned {
    var quarantined := Quarantined(plan, bounds);
    var applicable, large := |Applicable(plan.refreshes, quarantined)|, |LargeMoves(plan.refreshes)|;
    Planned(|plan.candidates|, applicable, large, if LargeMovesAllowed(plan, bounds) then large else 0, |quarantined|,
           if apply then |plan.candidates| else 0, if apply then |plan.candidates| else 0,
           if apply then applicable else 0)
  }

  /** The positions of the refreshes that move a cafe by more than 250 metres. */
  ghost function FarMoves(refreshes: seq<Refresh>): set<nat> {
    set i: nat | i < |refreshes| && refreshes[i].movementM > 250.0
  }

  lemma {:induction false} LargeMovesCount(refreshes: seq<Refresh>)
    ensures |LargeMoves(refreshes)| == |FarMoves(refreshes)|
  {
    if refreshes == [] {
      assert FarMoves(refreshes) == {};
    } else {
      var n := |refreshes| - 1;
      LargeMovesCount(refreshes[..n]);
      assert FarMoves(refreshes) == FarMoves(refreshes[..n]) + if refreshes[n].movementM > 250.0 then {n} else {};
    }
  }

  /** Distinct refreshes name as many cafes as they are. */
  lemma {:induction false} AsManyCafes(refreshes: seq<Refresh>)
    requires DistinctRefreshes(refreshes)
    ensures |set r | r in LargeMoves(refreshes) :: r.cafeId| == |LargeMoves(refreshes)|
  {
    if refreshes == [] {
      assert (set r | r in LargeMoves(refreshes) :: r.cafeId) == {};
    } else {
      var before, last := refreshes[..|refreshes| - 1], refreshes[|refreshes| - 1];
      AsManyCafes(before);
      LargeMovesMembers(before);
      var ids := set r | r in LargeMoves(before) :: r.cafeId;
      if last.movementM > LARGE_MOVE_M {
        assert last.cafeId !in ids;
        assert (set r | r in LargeMoves(refreshes) :: r.cafeId) == ids + {last.cafeId};
      } else {
        assert LargeMoves(refreshes) == LargeMoves(before);
      }
    }
  }

  lemma {:induction false} KeptAndLarge(refreshes: seq<Refresh>, quarantined: set<nat>)
    requires forall r :: r in refreshes ==> (r.cafeId in quarantined <==> r.movementM > LARGE_MOVE_M)
    ensures |Applicable(refreshes, quarantined)| + |LargeMoves(refreshes)| == |refreshes|
  {
    if refreshes != [] { KeptAndLarge(refreshes[..|refreshes| - 1], quarantined); }
  }

  lemma {:induction false} NothingQuarantined(refreshes: seq<Refresh>)
    ensures |Applicable(refreshes, {})| == |refreshes|
  {
    if refreshes != [] { NothingQuarantined(refreshes[..|refreshes| - 1]); }
  }

  /**
   The report: with a bound of at least the number of moves beyond 250 metres all refreshes are planned, without
   one exactly the other refreshes; only an applied run has refreshed or inserted anything.
   */
  lemma ReportCountsMoves(plan: Plan, bounds: Bounds, apply: bool)
    requires DistinctRefreshes(plan.refreshes)
    ensures var report, far := ExpansionReport(plan, bounds, apply), |FarMoves(plan.refreshes)|;
            var allowed := bounds.maxLargeMoves.Some? && far <= bounds.maxLargeMoves.value;
            && report.candidateCount == |plan.candidates| && report.largeMoves == far
            && report.largeMovesPlanned == (if allowed then far else 0)
            && report.largeMovesQuarantined == (if allowed then 0 else far)
            && report.plannedRefreshes == |plan.refreshes| - (if allowed then 0 else far)
            && report.refreshedCafes == (if apply then report.plannedRefreshes else 0)
            && report.insertedCafes == (if apply then |plan.candidates| else 0)
            && report.insertedPlaces == (if apply then |plan.candidates| else 0)
  {
    hide LargeMoves, Applicable, FarMoves, DistinctRefreshes;
    LargeMovesCount(plan.refreshes);
    AsManyCafes(plan.refreshes);
    if LargeMovesAllowed(plan, bounds) {
      NothingQuarantined(plan.refreshes);
    } else {
      LargeMovesMembers(plan.refreshes);
      forall r | r in plan.refreshes
        ensures r.cafeId in Quarantined(plan, bounds) <==> r.movementM > LARGE_MOVE_M
      {
        OneRefreshPerCafe(plan.refreshes, r);
      }
      KeptAndLarge(plan.refreshes, Quarantined(plan, bounds));
    }
  }

  /** `_validate_database_ownership` */
  method ValidateOwnership(db: Db) returns (ok: bool, byId: map<nat, nat>, byCafeProvider: map<(nat, string), nat>)
    requires KeyedDb(db)
    ensures ok <==> ConstraintsHold(db) && AllOwned(db)
    ensures ProviderSeedSession.IndexesRows(byId, db.cafes, ProviderSeedSession.CafeIdKey)
    ensures ProviderSeedSession.IndexesRows(byCafeProvider, db.places, ProviderSeedSession.CafeProviderOf)
  {
    hide ProviderSeedSession.IndexesRows, ProviderSeedSession.StoredAt, ProviderSeedSession.InRange, UniqueOrigins,
         UniqueKeys, UniqueCafeProviders, FindPlace, FindCafeProvider, KeyedDb, KakaoOwned;
    var byOrigin, byKey;
    byOrigin, byId := ProviderSeedSession.IndexCafes(db.cafes);
    byKey, byCafeProvider := ProviderSeedSession.IndexPlaces(db.places);
    ok := |byOrigin| == |db.cafes| && |byKey| == |db.places| && |byCafeProvider| == |db.places|;
    var i := 0;
    while ok && i < |db.cafes|
      invariant 0 <= i <= |db.cafes|
      invariant ok ==> ConstraintsHold(db)
      invariant ok ==>
                  forall j :: 0 <= j < i && db.cafes[j].origin.provider == KAKAO ==> KakaoOwned(db.places, db.cafes[j])
      invariant !ok ==> !(ConstraintsHold(db) && AllOwned(db))
    {
      if db.cafes[i].origin.provider == KAKAO {
        ok := OwnedByLookup(db.places, db.cafes[i], byKey, byCafeProvider);
      }
      i := i + 1;
    }
  }

  /** The ownership test of one cafe. */
  method OwnedByLookup(places: seq<Place>, c: Cafe, byKey: map<PlaceKey, nat>, byCafeProvider: map<(nat, string), nat>)
    returns (ok: bool)
    requires UniqueKeys(places) && UniqueCafeProviders(places)
    requires ProviderSeedSession.IndexesRows(byKey, places, ProviderSeedSession.KeyOf)
    requires ProviderSeedSession.IndexesRows(byCafeProvider, places, ProviderSeedSession.CafeProviderOf)
    ensures ok <==> KakaoOwned(places, c)
  {
    hide ProviderSeedSession.IndexesRows, UniqueKeys, UniqueCafeProviders, FindPlace, FindCafeProvider;
    ProviderSeedSession.KeyIndexFinds(places, byKey, PlaceKey(KAKAO, c.origin.sourceId));
    ProviderSeedSession.CafeProviderIndexFinds(places, byCafeProvider, c.id, KAKAO);
    var place := ProviderSeedSession.StoredAt(places, byKey, PlaceKey(KAKAO, c.origin.sourceId));
    var owned := ProviderSeedSession.StoredAt(places, byCafeProvider, (c.id, KAKAO));
    ok := place.Some? && owned == place && OwnsPlace(place.value, c);
  }

  /** The collision and length checks before the first write. */
  method CheckPlan(db: Db, plan: Plan, applicable: seq<Refresh>) returns (ok: bool)
    ensures ok <==>
            && (forall i :: 0 <= i < |plan.candidates| ==>
                  !CollidesWithStored(db, plan.candidates[i]) && plan.candidates[i].fits)
            && (forall r :: r in applicable ==> r.fits)
  {
    hide FindCafe, FindPlace;
    var origins := set c | c in db.cafes :: c.origin;
    var keys := set p | p in db.places :: p.key;
    for i := 0 to |plan.candidates|
      invariant forall j :: 0 <= j < i ==> !CollidesWithStored(db, plan.candidates[j]) && plan.candidates[j].fits
    {
      var c := plan.candidates[i];
      CollisionBySets(db, c);
      if Origin(KAKAO, c.placeId) in origins || PlaceKey(KAKAO, c.placeId) in keys || !c.fits {
        return false;
      }
    }
    for i := 0 to |applicable|
      invariant forall j :: 0 <= j < i ==> applicable[j].fits
    {
      if !applicable[i].fits {
        return false;
      }
    }
    ok := true;
  }

  lemma CollisionBySets(db: Db, c: NewCafe)
    ensures CollidesWithStored(db, c) <==>
            || Origin(KAKAO, c.placeId) in (set r | r in db.cafes :: r.origin)
            || PlaceKey(KAKAO, c.placeId) in (set p | p in db.places :: p.key)
  {
    hide FindCafe, FindPlace;
  }

  class Session {
    var cafes: seq<Cafe>
    var places: seq<Place>
    var nextCafeId: nat
    var nextPlaceId: nat

    constructor (db: Db)
      ensures State() == db
    {
      cafes, places, nextCafeId, nextPlaceId := db.cafes, db.places, db.nextCafeId, db.nextPlaceId;
    }

    function State(): Db
      reads this
    {
      Db(cafes, places, nextCafeId, nextPlaceId)
    }

    /** The display refreshes. */
    method ApplyRefreshes(refreshes: seq<Refresh>, byId: map<nat, nat>)
      requires DistinctRefreshes(refreshes) && UniqueCafeIds(cafes)
      requires ProviderSeedSession.IndexesRows(byId, cafes, ProviderSeedSession.CafeIdKey)
      requires forall r :: r in refreshes ==> r.cafeId in byId
      modifies this`cafes
      ensures cafes == RefreshedRows(refreshes, old(cafes))
    {
      hide *;
      ghost var stored := cafes;
      NoRefreshes(stored);
      assert refreshes[..0] == [];
      for k := 0 to |refreshes|
        invariant cafes == RefreshedRows(refreshes[..k], stored)
      {
        var r := refreshes[k];
        assert r in refreshes && refreshes[..k + 1] == refreshes[..k] + [r];
        DistinctPrefix(refreshes, k + 1);
        NextRefreshWrites(refreshes[..k], r, stored, byId);
        var i := byId[r.cafeId];
        var columns := cafes[i].columns + r.display;
        if cafes[i].origin.provider == KAKAO {
          columns := columns + r.source;
        }
        cafes := cafes[i := cafes[i].(columns := columns)];
      }
      assert refreshes[..|refreshes|] == refreshes;
    }

    /** The renewal of the links that were seen again. */
    method RenewSeen(seen: seq<nat>, quarantined: set<nat>, now: int, byCafeProvider: map<(nat, string), nat>)
      requires UniqueCafeProviders(places)
      requires ProviderSeedSession.IndexesRows(byCafeProvider, places, ProviderSeedSession.CafeProviderOf)
      requires forall id :: id in seen ==> (id, KAKAO) in byCafeProvider
      modifies this`places
      ensures places == RenewedRows(seen, quarantined, now, old(places))
    {
      hide *;
      ghost var stored := places;
      NoneSeen(quarantined, now, stored);
      assert seen[..0] == [];
      for k := 0 to |seen|
        invariant places == RenewedRows(seen[..k], quarantined, now, stored)
      {
        var id := seen[k];
        assert id in seen && seen[..k + 1] == seen[..k] + [id];
        NextSeenRenews(seen[..k], id, quarantined, now, stored, byCafeProvider);
        if id !in quarantined {
          var i := byCafeProvider[(id, KAKAO)];
          var url := PlaceUrl(places[i].key.placeId);
          places := places[i := places[i].(detailUrl := url, lastSeenAt := now, verifiedAt := now)];
        }
      }
      assert seen[..|seen|] == seen;
    }

    /** The new cafes, flushed for their ids, and their links. */
    method InsertCandidates(candidates: seq<NewCafe>, now: int)
      modifies this
      ensures cafes == old(cafes) + CreatedCafes(candidates, old(nextCafeId))
      ensures places == old(places) + CreatedPlaces(candidates, old(nextPlaceId), old(nextCafeId), now)
      ensures nextCafeId == old(nextCafeId) + |candidates| && nextPlaceId == old(nextPlaceId) + |candidates|
    {
      var firstId, storedCafes := nextCafeId, |cafes|;
      for k := 0 to |candidates|
        invariant nextCafeId == firstId + k && places == old(places) && nextPlaceId == old(nextPlaceId)
        invariant cafes == old(cafes) + CreatedCafes(candidates, firstId)[..k]
      {
        cafes := cafes + [Cafe(nextCafeId, Origin(KAKAO, candidates[k].placeId), candidates[k].columns)];
        nextCafeId := nextCafeId + 1;
      }
      for k := 0 to |candidates|
        invariant nextPlaceId == old(nextPlaceId) + k && nextCafeId == firstId + |candidates|
        invariant cafes == old(cafes) + CreatedCafes(candidates, firstId)
        invariant places == old(places) + CreatedPlaces(candidates, old(nextPlaceId), firstId, now)[..k]
      {
        places := places + [CreatedPlace(candidates[k], nextPlaceId, cafes[storedCafes + k].id, now)];
        nextPlaceId := nextPlaceId + 1;
      }
    }

    /**
     The whole run: refused exactly when a check fails, and then nothing is written; a dry run plans what a
     write applies and writes nothing.
     */
    method SeedKakaoCatalogExpansion(
        plan: Plan, bounds: Bounds, apply: bool, now: int) returns (result: Result<Planned>)
      requires KeyedDb(State()) && PlanFits(State(), plan)
      modifies this
      ensures result.Ok? <==> Accepts(old(State()), plan, bounds, apply)
      ensures result.Ok? ==> result.value == ExpansionReport(plan, bounds, apply)
      ensures State() == if result.Ok? && apply then Expanded(old(State()), plan, bounds, now) else old(State())
    {
      hide ConstraintsHold, AllOwned, KeyedDb, PlanFits, CollidesWithStored, LargeMoves, Applicable,
           ProviderSeedSession.IndexesRows, RefreshedRows, RenewedRows, CreatedCafes, CreatedPlaces;
      if !BoundOk(bounds.maxCandidates, APPLY_ABSOLUTE_MAX_CANDIDATES, apply)
         || !BoundOk(bounds.maxLargeMoves, REFRESH_ABSOLUTE_MAX_LARGE_MOVES, apply) {
        return Error("a safety bound is missing or out of range");
      }
      var owned, byId, byCafeProvider := ValidateOwnership(State());
      if !owned {
        return Error("database ownership is inconsistent");
      }
      var quarantined := Quarantined(plan, bounds);
      var applicable := Applicable(plan.refreshes, quarantined);
      if bounds.maxCandidates.Some? && |plan.candidates| > bounds.maxCandidates.value {
        return Error("candidate count exceeds operator bound");
      }
      var planned := CheckPlan(State(), plan, applicable);
      if !planned {
        return Error("a candidate or refresh cannot be stored");
      }
      if apply {
        PlanIsIndexed(State(), plan, quarantined, byId, byCafeProvider);
        ApplyRefreshes(applicable, byId);
        RenewSeen(plan.seenCafeIds, quarantined, now, byCafeProvider);
        InsertCandidates(plan.candidates, now);
      }
      return Ok(ExpansionReport(plan, bounds, apply));
    }
  }

  lemma DistinctPrefix(refreshes: seq<Refresh>, k: nat)
    requires k <= |refreshes| && DistinctRefreshes(refreshes)
    ensures DistinctRefreshes(refreshes[..k])
  {
  }

  lemma {:induction false} ApplicableDistinct(refreshes: seq<Refresh>, quarantined: set<nat>)
    requires DistinctRefreshes(refreshes)
    ensures DistinctRefreshes(Applicable(refreshes, quarantined))
  {
    if refreshes != [] {
      var before, last := refreshes[..|refreshes| - 1], refreshes[|refreshes| - 1];
      ApplicableDistinct(before, quarantined);
      ApplicableMembers(before, quarantined);
      var kept := Applicable(before, quarantined);
      forall k | 0 <= k < |kept|
        ensures kept[k].cafeId != last.cafeId
      {
        assert kept[k] in kept;
        var i :| 0 <= i < |before| && before[i] == kept[k];
        assert refreshes[i] == before[i];
      }
    }
  }

  /** Every cafe and link a plan writes is found by the dictionaries. */
  lemma PlanIsIndexed(
      db: Db, plan: Plan, quarantined: set<nat>, byId: map<nat, nat>, byCafeProvider: map<(nat, string), nat>)
    requires KeyedDb(db) && ConstraintsHold(db) && PlanFits(db, plan)
    requires ProviderSeedSession.IndexesRows(byId, db.cafes, ProviderSeedSession.CafeIdKey)
    requires ProviderSeedSession.IndexesRows(byCafeProvider, db.places, ProviderSeedSession.CafeProviderOf)
    ensures UniqueCafeIds(db.cafes) && UniqueCafeProviders(db.places)
    ensures DistinctRefreshes(Applicable(plan.refreshes, quarantined))
    ensures forall r :: r in Applicable(plan.refreshes, quarantined) ==> r.cafeId in byId
    ensures forall id :: id in plan.seenCafeIds ==> (id, KAKAO) in byCafeProvider
  {
    hide FindCafeById, FindCafeProvider, ProviderSeedSession.IndexesRows, UniqueOrigins, UniqueKeys,
         UniqueCafeProviders, UniqueCafeIds, DistinctRefreshes, Applicable;
    ApplicableDistinct(plan.refreshes, quarantined);
    ApplicableMembers(plan.refreshes, quarantined);
    forall id | id in plan.seenCafeIds
      ensures id in byId && (id, KAKAO) in byCafeProvider
    {
      ProviderSeedSession.IdIndexFinds(db.cafes, byId, id);
      ProviderSeedSession.CafeProviderIndexFinds(db.places, byCafeProvider, id, KAKAO);
    }
  }
}
