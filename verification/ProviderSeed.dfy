/**
 The provider catalogue upsert (`seed_provider_cafes` and `stage_provider_seed` in
 backend/scripts/seed_provider_cafes.py) on the two tables it writes.
 */
module ProviderSeed {
  import opened Outcomes

  // ---------------------------------------------------------------------------------------
  // Rows
  // ---------------------------------------------------------------------------------------

  /** The canonical owner of a cafe row. */
  datatype Origin = Origin(provider: string, sourceId: string)

  /** A stored column value. */
  datatype Value = Null | Text(text: string) | Number(number: real) | Flag(flag: bool)

  type Columns = map<string, Value>

  datatype Cafe = Cafe(id: nat, origin: Origin, columns: Columns)

  /** The database key of a provider place. */
  datatype PlaceKey = PlaceKey(provider: string, placeId: string)

  datatype Place = Place(
    id: nat, cafeId: nat, key: PlaceKey, detailUrl: string, active: bool,
    matchMethod: string, matchDistanceM: Option<real>, verifiedAt: int, lastSeenAt: int)

  datatype Reference = Reference(
    origin: Origin, key: PlaceKey, directUrl: string, matchRule: string, matchDistanceM: Option<real>)

  datatype Candidate = Candidate(origin: Origin, columns: Columns, providerRefs: seq<Reference>)

  datatype Catalog = Catalog(existingProviderRefs: seq<Reference>, newCafeCandidates: seq<Candidate>)

  /** The tables, and the next primary keys they hand out. */
  datatype Db = Db(cafes: seq<Cafe>, places: seq<Place>, nextCafeId: nat, nextPlaceId: nat)

  datatype Report = Report(
    cafeInserted: nat, cafeUpdated: nat, cafeUnchanged: nat,
    providerInserted: nat, providerUpdated: nat, providerUnchanged: nat, providerDeactivated: nat)

  /** `overture_seed_value_equal`: column name, stored value, incoming value. */
  type SameValue = (string, Value, Value) -> bool

  ghost predicate Reflexive(same: SameValue) {
    forall column: string, v: Value :: same(column, v, v)
  }

  const MANAGED_KAKAO_MATCH_METHODS := {
    "exact_name", "exact_phone", "exact_name_and_phone", "exact_name_and_address",
    "exact_phone_and_address", "exact_name_and_phone_and_address"}

  const PROVIDER_LAST_SEEN_UPDATE_BATCH_SIZE := 500

  function CandidateReferences(candidates: seq<Candidate>): seq<Reference> {
    if candidates == [] then [] else candidates[0].providerRefs + CandidateReferences(candidates[1..])
  }

  function AllReferences(catalog: Catalog): seq<Reference> {
    catalog.existingProviderRefs + CandidateReferences(catalog.newCafeCandidates)
  }

  // ---------------------------------------------------------------------------------------
  // The constraints of the database
  // ---------------------------------------------------------------------------------------

  predicate UniqueOrigins(cafes: seq<Cafe>) {
    forall i, j :: 0 <= i < j < |cafes| ==> cafes[i].origin != cafes[j].origin
  }

  predicate UniqueCafeIds(cafes: seq<Cafe>) {
    forall i, j :: 0 <= i < j < |cafes| ==> cafes[i].id != cafes[j].id
  }

  /** `uq_cafe_provider_places_provider_place_id` */
  predicate UniqueKeys(places: seq<Place>) {
    forall i, j :: 0 <= i < j < |places| ==> places[i].key != places[j].key
  }

  /** `uq_cafe_provider_places_cafe_provider` */
  predicate UniqueCafeProviders(places: seq<Place>) {
    forall i, j :: 0 <= i < j < |places| ==>
                     !(places[i].cafeId == places[j].cafeId && places[i].key.provider == places[j].key.provider)
  }

  predicate UniquePlaceIds(places: seq<Place>) {
    forall i, j :: 0 <= i < j < |places| ==> places[i].id != places[j].id
  }

  /** Primary keys are unique and below the next ones, and every place belongs to a cafe row. */
  predicate KeyedDb(db: Db) {
    && UniqueCafeIds(db.cafes) && UniquePlaceIds(db.places)
    && (forall i :: 0 <= i < |db.cafes| ==> db.cafes[i].id < db.nextCafeId)
    && (forall i :: 0 <= i < |db.places| ==> db.places[i].id < db.nextPlaceId)
    && (forall i :: 0 <= i < |db.places| ==> FindCafeById(db.cafes, db.places[i].cafeId).Some?)
  }

  /** Both uniqueness constraints on provider places, and unique cafe origins. */
  predicate ConstraintsHold(db: Db) {
    UniqueOrigins(db.cafes) && UniqueKeys(db.places) && UniqueCafeProviders(db.places)
  }

  // ---------------------------------------------------------------------------------------
  // Lookups
  // ---------------------------------------------------------------------------------------

  function FindCafe(cafes: seq<Cafe>, origin: Origin): (found: Option<Cafe>)
    ensures found.Some? ==> found.value in cafes && found.value.origin == origin
    ensures found.None? ==> forall c :: c in cafes ==> c.origin != origin
  {
    if cafes == [] then None
    else if cafes[0].origin == origin then Some(cafes[0]) else FindCafe(cafes[1..], origin)
  }

  function FindCafeById(cafes: seq<Cafe>, id: nat): (found: Option<Cafe>)
    ensures found.Some? ==> found.value in cafes && found.value.id == id
    ensures found.None? ==> forall c :: c in cafes ==> c.id != id
  {
    if cafes == [] then None else if cafes[0].id == id then Some(cafes[0]) else FindCafeById(cafes[1..], id)
  }

  function FindPlace(places: seq<Place>, key: PlaceKey): (found: Option<Place>)
    ensures found.Some? ==> found.value in places && found.value.key == key
    ensures found.None? ==> forall p :: p in places ==> p.key != key
  {
    if places == [] then None else if places[0].key == key then Some(places[0]) else FindPlace(places[1..], key)
  }

  function FindCafeProvider(places: seq<Place>, cafeId: nat, provider: string): (found: Option<Place>)
    ensures found.Some? ==>
              found.value in places && found.value.cafeId == cafeId && found.value.key.provider == provider
    ensures found.None? ==> forall p :: p in places ==> !(p.cafeId == cafeId && p.key.provider == provider)
  {
    if places == [] then None
    else if places[0].cafeId == cafeId && places[0].key.provider == provider then Some(places[0])
    else FindCafeProvider(places[1..], cafeId, provider)
  }

  function FindReference(refs: seq<Reference>, key: PlaceKey): (found: Option<Reference>)
    ensures found.Some? ==> found.value in refs && found.value.key == key
    ensures found.None? ==> forall r :: r in refs ==> r.key != key
  {
    if refs == [] then None else if refs[0].key == key then Some(refs[0]) else FindReference(refs[1..], key)
  }

  function FindCandidate(candidates: seq<Candidate>, origin: Origin): (found: Option<Candidate>)
    ensures found.Some? ==> found.value in candidates && found.value.origin == origin
    ensures found.None? ==> forall c :: c in candidates ==> c.origin != origin
  {
    if candidates == [] then None
    else if candidates[0].origin == origin then Some(candidates[0]) else FindCandidate(candidates[1..], origin)
  }

  // ---------------------------------------------------------------------------------------
  // Validation
  // ---------------------------------------------------------------------------------------

  predicate UniqueCandidates(candidates: seq<Candidate>) {
    forall i, j :: 0 <= i < j < |candidates| ==> candidates[i].origin != candidates[j].origin
  }

  /** No place is named twice, and no cafe twice for one provider. */
  predicate ConsistentReferences(refs: seq<Reference>) {
    forall i, j :: 0 <= i < j < |refs| ==>
                     && refs[i].key != refs[j].key
                     && !(refs[i].origin == refs[j].origin && refs[i].key.provider == refs[j].key.provider)
  }

  /** The checks made for one reference against the stored rows. */
  predicate ReferenceFits(db: Db, candidates: seq<Candidate>, r: Reference) {
    var target := FindCafe(db.cafes, r.origin);
    var owner := FindPlace(db.places, r.key);
    && (target.Some? || FindCandidate(candidates, r.origin).Some?)
    && (owner.Some? ==> var cafe := FindCafeById(db.cafes, owner.value.cafeId);
                        cafe.Some? && cafe.value.origin == r.origin)
    && (target.Some? ==> var current := FindCafeProvider(db.places, target.value.id, r.key.provider);
                         current.Some? ==> current.value.key == r.key)
  }

  predicate Valid(db: Db, catalog: Catalog) {
    var refs := AllReferences(catalog);
    && ConstraintsHold(db)
    && UniqueCandidates(catalog.newCafeCandidates)
    && ConsistentReferences(refs)
    && (forall i :: 0 <= i < |refs| ==> ReferenceFits(db, catalog.newCafeCandidates, refs[i]))
  }

  // ---------------------------------------------------------------------------------------
  // The upsert
  // ---------------------------------------------------------------------------------------

  predicate Changes(same: SameValue, stored: Columns, incoming: Columns, column: string) {
    column in incoming && !(column in stored && same(column, stored[column], incoming[column]))
  }

  predicate CafeChanges(same: SameValue, stored: Columns, incoming: Columns) {
    exists column :: column in incoming && Changes(same, stored, incoming, column)
  }

  /** Only the changed columns are written. */
  function Written(same: SameValue, stored: Columns, incoming: Columns): Columns {
    stored + map column | column in incoming && Changes(same, stored, incoming, column) :: incoming[column]
  }

  function CafeAfter(same: SameValue, candidates: seq<Candidate>, cafe: Cafe): Cafe {
    match FindCandidate(candidates, cafe.origin)
    case None => cafe
    case Some(c) => cafe.(columns := Written(same, cafe.columns, c.columns))
  }

  function CafesAfter(same: SameValue, candidates: seq<Candidate>, cafes: seq<Cafe>): (r: seq<Cafe>)
    ensures |r| == |cafes|
    ensures forall i :: 0 <= i < |cafes| ==> r[i] == CafeAfter(same, candidates, cafes[i])
  {
    seq(|cafes|, i requires 0 <= i < |cafes| => CafeAfter(same, candidates, cafes[i]))
  }

  /** The candidates without a row, in order. */
  function MissingCandidates(stored: seq<Cafe>, candidates: seq<Candidate>): seq<Candidate> {
    if candidates == [] then []
    else
      var last := candidates[|candidates| - 1];
      MissingCandidates(stored, candidates[..|candidates| - 1])
      + (if FindCafe(stored, last.origin).None? then [last] else [])
  }

  /** The cafes created for them, with fresh ids. */
  function NewCafes(stored: seq<Cafe>, candidates: seq<Candidate>, nextId: nat): (created: seq<Cafe>)
    ensures |created| == |MissingCandidates(stored, candidates)|
    ensures forall k :: 0 <= k < |created| ==>
                          var c := MissingCandidates(stored, candidates)[k];
                          created[k] == Cafe(nextId + k, c.origin, c.columns)
  {
    var missing := MissingCandidates(stored, candidates);
    seq(|missing|, k requires 0 <= k < |missing| => Cafe(nextId + k, missing[k].origin, missing[k].columns))
  }

  /** The row with every column its reference sets. */
  function Rewritten(p: Place, r: Reference, now: int): Place {
    p.(detailUrl := r.directUrl, active := true, matchMethod := r.matchRule, matchDistanceM := r.matchDistanceM,
       verifiedAt := now, lastSeenAt := now)
  }

  predicate PlaceChanges(p: Place, r: Reference) {
    p.detailUrl != r.directUrl || !p.active || p.matchMethod != r.matchRule || p.matchDistanceM != r.matchDistanceM
  }

  /** The retirement test: an active Kakao link of this pipeline that the catalogue no longer names. */
  predicate Retires(refs: seq<Reference>, p: Place) {
    && p.active && p.key.provider == "kakao" && p.matchMethod in MANAGED_KAKAO_MATCH_METHODS
    && FindReference(refs, p.key).None?
  }

  function PlaceAfter(refs: seq<Reference>, now: int, p: Place): Place {
    match FindReference(refs, p.key)
    case Some(r) =>
      if PlaceChanges(p, r) then Rewritten(p, r, now)
      else p.(lastSeenAt := now)
    case None => if Retires(refs, p) then p.(active := false) else p
  }

  function PlacesAfter(refs: seq<Reference>, now: int, places: seq<Place>): (r: seq<Place>)
    ensures |r| == |places|
    ensures forall i :: 0 <= i < |places| ==> r[i] == PlaceAfter(refs, now, places[i])
  {
    seq(|places|, i requires 0 <= i < |places| => PlaceAfter(refs, now, places[i]))
  }

  function CafeIdOf(cafes: seq<Cafe>, origin: Origin): nat {
    match FindCafe(cafes, origin)
    case Some(c) => c.id
    case None => 0
  }

  /** The references whose place has no row, in order. */
  function MissingReferences(stored: seq<Place>, refs: seq<Reference>): seq<Reference> {
    if refs == [] then []
    else
      var last := refs[|refs| - 1];
      MissingReferences(stored, refs[..|refs| - 1]) + (if FindPlace(stored, last.key).None? then [last] else [])
  }

  /** The row inserted for a reference. */
  function InsertedPlace(cafes: seq<Cafe>, r: Reference, id: nat, now: int): Place {
    Place(id, CafeIdOf(cafes, r.origin), r.key, r.directUrl, true, r.matchRule, r.matchDistanceM, now, now)
  }

  function NewPlaces(
      stored: seq<Place>, cafes: seq<Cafe>, refs: seq<Reference>, nextId: nat, now: int): (inserted: seq<Place>)
    ensures |inserted| == |MissingReferences(stored, refs)|
    ensures forall k :: 0 <= k < |inserted| ==>
                          inserted[k] == InsertedPlace(cafes, MissingReferences(stored, refs)[k], nextId + k, now)
  {
    var missing := MissingReferences(stored, refs);
    seq(|missing|, k requires 0 <= k < |missing| => InsertedPlace(cafes, missing[k], nextId + k, now))
  }

  /** The tables after an accepted catalogue has been applied. */
  function Seeded(same: SameValue, db: Db, catalog: Catalog, now: int): Db {
    var candidates, refs := catalog.newCafeCandidates, AllReferences(catalog);
    var created := NewCafes(db.cafes, candidates, db.nextCafeId);
    var cafes := CafesAfter(same, candidates, db.cafes) + created;
    var inserted := NewPlaces(db.places, cafes, refs, db.nextPlaceId, now);
    Db(cafes, PlacesAfter(refs, now, db.places) + inserted, db.nextCafeId + |created|, db.nextPlaceId + |inserted|)
  }

  function CountCafes(same: SameValue, stored: seq<Cafe>, candidates: seq<Candidate>): Report {
    if candidates == [] then Report(0, 0, 0, 0, 0, 0, 0)
    else
      var before, last := CountCafes(same, stored, candidates[..|candidates| - 1]), candidates[|candidates| - 1];
      match FindCafe(stored, last.origin)
      case None => before.(cafeInserted := before.cafeInserted + 1)
      case Some(cafe) =>
        if CafeChanges(same, cafe.columns, last.columns) then before.(cafeUpdated := before.cafeUpdated + 1)
        else before.(cafeUnchanged := before.cafeUnchanged + 1)
  }

  function CountReferences(counts: Report, stored: seq<Place>, refs: seq<Reference>): Report {
    if refs == [] then counts
    else
      var before, last := CountReferences(counts, stored, refs[..|refs| - 1]), refs[|refs| - 1];
      match FindPlace(stored, last.key)
      case None => before.(providerInserted := before.providerInserted + 1)
      case Some(p) =>
        if PlaceChanges(p, last) then before.(providerUpdated := before.providerUpdated + 1)
        else before.(providerUnchanged := before.providerUnchanged + 1)
  }

  function CountRetired(counts: Report, places: seq<Place>, refs: seq<Reference>): Report {
    if places == [] then counts
    else
      var before := CountRetired(counts, places[..|places| - 1], refs);
      if Retires(refs, places[|places| - 1]) then before.(providerDeactivated := before.providerDeactivated + 1)
      else before
  }

  /** The counts of a run, which look at the stored rows and the catalogue only. */
  function ReportOf(same: SameValue, db: Db, catalog: Catalog): Report {
    var refs := AllReferences(catalog);
    CountRetired(CountReferences(CountCafes(same, db.cafes, catalog.newCafeCandidates), db.places, refs),
                 db.places, refs)
  }

  // ---------------------------------------------------------------------------------------
  // The rows an upsert adds
  // ---------------------------------------------------------------------------------------

  lemma {:induction false} MissingCandidatesMembers(stored: seq<Cafe>, candidates: seq<Candidate>)
    ensures forall c :: c in MissingCandidates(stored, candidates) <==>
                        c in candidates && FindCafe(stored, c.origin).None?
  {
    hide FindCafe;
    if candidates != [] {
      assert candidates == candidates[..|candidates| - 1] + [candidates[|candidates| - 1]];
      MissingCandidatesMembers(stored, candidates[..|candidates| - 1]);
    }
  }

  lemma {:induction false} MissingCandidatesUnique(stored: seq<Cafe>, candidates: seq<Candidate>)
    requires UniqueCandidates(candidates)
    ensures UniqueCandidates(MissingCandidates(stored, candidates))
  {
    hide FindCafe;
    if candidates != [] {
      var before, last := candidates[..|candidates| - 1], candidates[|candidates| - 1];
      MissingCandidatesUnique(stored, before);
      MissingCandidatesMembers(stored, before);
      var missing := MissingCandidates(stored, before);
      forall k | 0 <= k < |missing|
        ensures missing[k].origin != last.origin
      {
        assert missing[k] in missing;
        var i :| 0 <= i < |before| && before[i] == missing[k];
        assert candidates[i] == before[i];
      }
    }
  }

  lemma {:induction false} MissingReferencesMembers(stored: seq<Place>, refs: seq<Reference>)
    ensures forall r :: r in MissingReferences(stored, refs) <==> r in refs && FindPlace(stored, r.key).None?
  {
    hide FindPlace;
    if refs != [] {
      assert refs == refs[..|refs| - 1] + [refs[|refs| - 1]];
      MissingReferencesMembers(stored, refs[..|refs| - 1]);
    }
  }

  lemma {:induction false} MissingReferencesConsistent(stored: seq<Place>, refs: seq<Reference>)
    requires ConsistentReferences(refs)
    ensures ConsistentReferences(MissingReferences(stored, refs))
  {
    hide FindPlace;
    if refs != [] {
      var before, last := refs[..|refs| - 1], refs[|refs| - 1];
      MissingReferencesConsistent(stored, before);
      MissingReferencesMembers(stored, before);
      var missing := MissingReferences(stored, before);
      forall k | 0 <= k < |missing|
        ensures missing[k].key != last.key
        ensures !(missing[k].origin == last.origin && missing[k].key.provider == last.key.provider)
      {
        assert missing[k] in missing;
        var i :| 0 <= i < |before| && before[i] == missing[k];
        assert refs[i] == before[i];
      }
    }
  }

  // ---------------------------------------------------------------------------------------
  // Safety of an accepted catalogue
  // ---------------------------------------------------------------------------------------

  lemma {:induction false} FindCafeNone(cafes: seq<Cafe>, origin: Origin)
    ensures FindCafe(cafes, origin).None? <==> forall i :: 0 <= i < |cafes| ==> cafes[i].origin != origin
  {
    hide FindCafe;
    assert forall i :: 0 <= i < |cafes| ==> cafes[i] in cafes;
  }

  /** Origins and ids stay unique and below the next id. */
  lemma CafesStayKeyed(same: SameValue, db: Db, candidates: seq<Candidate>)
    requires KeyedDb(db) && UniqueOrigins(db.cafes) && UniqueCandidates(candidates)
    ensures var created := NewCafes(db.cafes, candidates, db.nextCafeId);
            var cafes := CafesAfter(same, candidates, db.cafes) + created;
            && UniqueOrigins(cafes) && UniqueCafeIds(cafes)
            && (forall i :: 0 <= i < |cafes| ==> cafes[i].id < db.nextCafeId + |created|)
  {
    hide CafeAfter, FindCafe, MissingCandidates, CafesAfter, NewCafes;
    var created := NewCafes(db.cafes, candidates, db.nextCafeId);
    var stored := CafesAfter(same, candidates, db.cafes);
    var missing := MissingCandidates(db.cafes, candidates);
    MissingCandidatesUnique(db.cafes, candidates);
    MissingCandidatesMembers(db.cafes, candidates);
    forall i | 0 <= i < |stored|
      ensures stored[i].origin == db.cafes[i].origin && stored[i].id == db.cafes[i].id
    {
      CafeAfterKeepsIdentity(same, candidates, db.cafes[i]);
    }
    forall i, k | 0 <= i < |stored| && 0 <= k < |created|
      ensures stored[i].origin != created[k].origin && stored[i].id < created[k].id
    {
      assert missing[k] in missing;
      FindCafeNone(db.cafes, missing[k].origin);
    }
    AppendCafes(stored, created);
  }

  lemma AppendCafes(a: seq<Cafe>, b: seq<Cafe>)
    requires UniqueOrigins(a) && UniqueCafeIds(a) && UniqueOrigins(b) && UniqueCafeIds(b)
    requires forall i, k :: 0 <= i < |a| && 0 <= k < |b| ==> a[i].origin != b[k].origin && a[i].id != b[k].id
    ensures UniqueOrigins(a + b) && UniqueCafeIds(a + b)
  {
  }

  lemma CafeAfterKeepsIdentity(same: SameValue, candidates: seq<Candidate>, c: Cafe)
    ensures CafeAfter(same, candidates, c).origin == c.origin && CafeAfter(same, candidates, c).id == c.id
  {
  }

  lemma PlaceAfterKeepsIdentity(refs: seq<Reference>, now: int, p: Place)
    ensures var q := PlaceAfter(refs, now, p); q.id == p.id && q.cafeId == p.cafeId && q.key == p.key
  {
  }

  lemma FindCafeIsUnique(cafes: seq<Cafe>, c: Cafe)
    requires UniqueOrigins(cafes) && c in cafes
    ensures FindCafe(cafes, c.origin) == Some(c)
  {
    var found := FindCafe(cafes, c.origin).value;
    var i :| 0 <= i < |cafes| && cafes[i] == c;
    var j :| 0 <= j < |cafes| && cafes[j] == found;
  }

  lemma FindCafeByIdIsUnique(cafes: seq<Cafe>, c: Cafe)
    requires UniqueCafeIds(cafes) && c in cafes
    ensures FindCafeById(cafes, c.id) == Some(c)
  {
    var found := FindCafeById(cafes, c.id).value;
    var i :| 0 <= i < |cafes| && cafes[i] == c;
    var j :| 0 <= j < |cafes| && cafes[j] == found;
  }

  /** Every reference of a valid catalogue finds its cafe among the rows after the upsert. */
  lemma ReferenceHasCafe(same: SameValue, db: Db, catalog: Catalog, now: int, r: Reference)
    requires KeyedDb(db) && Valid(db, catalog) && r in AllReferences(catalog)
    ensures var cafes := Seeded(same, db, catalog, now).cafes;
            && FindCafe(cafes, r.origin).Some?
            && (match FindCafe(db.cafes, r.origin)
                case Some(target) => CafeIdOf(cafes, r.origin) == target.id
                case None => CafeIdOf(cafes, r.origin) >= db.nextCafeId)
  {
    hide CafeAfter, NewCafes, MissingCandidates, CafesAfter, AllReferences, PlacesAfter, NewPlaces,
         ConsistentReferences;
    var candidates, refs := catalog.newCafeCandidates, AllReferences(catalog);
    var created := NewCafes(db.cafes, candidates, db.nextCafeId);
    var stored := CafesAfter(same, candidates, db.cafes);
    var cafes := stored + created;
    var k :| 0 <= k < |refs| && refs[k] == r;
    assert ReferenceFits(db, candidates, r);
    CafesStayKeyed(same, db, candidates);
    if FindCafe(db.cafes, r.origin).Some? {
      var target := FindCafe(db.cafes, r.origin).value;
      var i :| 0 <= i < |db.cafes| && db.cafes[i] == target;
      CafeAfterKeepsIdentity(same, candidates, db.cafes[i]);
      assert cafes[i] == stored[i] && cafes[i] in cafes;
      FindCafeIsUnique(cafes, cafes[i]);
    } else {
      MissingCandidatesMembers(db.cafes, candidates);
      var c := FindCandidate(candidates, r.origin).value;
      var missing := MissingCandidates(db.cafes, candidates);
      assert c in missing;
      var j :| 0 <= j < |missing| && missing[j] == c;
      assert cafes[|stored| + j] == created[j] && created[j] in cafes;
      FindCafeIsUnique(cafes, created[j]);
    }
  }

  lemma AppendPlaces(a: seq<Place>, b: seq<Place>)
    requires UniqueKeys(a) && UniqueCafeProviders(a) && UniquePlaceIds(a)
    requires UniqueKeys(b) && UniqueCafeProviders(b) && UniquePlaceIds(b)
    requires forall i, k :: 0 <= i < |a| && 0 <= k < |b| ==> PlacesApart(a[i], b[k])
    ensures UniqueKeys(a + b) && UniqueCafeProviders(a + b) && UniquePlaceIds(a + b)
  {
  }

  /** Two rows that break no constraint together. */
  predicate PlacesApart(p: Place, q: Place) {
    p.key != q.key && p.id != q.id && !(p.cafeId == q.cafeId && p.key.provider == q.key.provider)
  }

  /** Two references never lead to one cafe of one provider. */
  lemma InsertedApart(cafes: seq<Cafe>, r1: Reference, r2: Reference)
    requires UniqueCafeIds(cafes)
    requires FindCafe(cafes, r1.origin).Some? && FindCafe(cafes, r2.origin).Some?
    requires !(r1.origin == r2.origin && r1.key.provider == r2.key.provider)
    ensures !(CafeIdOf(cafes, r1.origin) == CafeIdOf(cafes, r2.origin) && r1.key.provider == r2.key.provider)
  {
    hide FindCafe;
    var c1, c2 := FindCafe(cafes, r1.origin).value, FindCafe(cafes, r2.origin).value;
    if c1.id == c2.id {
      FindCafeByIdIsUnique(cafes, c1);
      FindCafeByIdIsUnique(cafes, c2);
    }
  }

  /** A row inserted for a valid reference clashes with no stored row. */
  lemma InsertedFitsStored(same: SameValue, db: Db, catalog: Catalog, now: int, p: Place, r: Reference, id: nat)
    requires KeyedDb(db) && Valid(db, catalog) && r in AllReferences(catalog)
    requires FindPlace(db.places, r.key).None? && p in db.places && id >= db.nextPlaceId
    ensures PlacesApart(p, InsertedPlace(Seeded(same, db, catalog, now).cafes, r, id, now))
  {
    hide Seeded, AllReferences, FindPlace, FindCafe, FindCafeProvider, FindCandidate, ConstraintsHold,
         ConsistentReferences;
    ReferenceHasCafe(same, db, catalog, now, r);
    var refs := AllReferences(catalog);
    var k :| 0 <= k < |refs| && refs[k] == r;
    assert ReferenceFits(db, catalog.newCafeCandidates, r);
    var i :| 0 <= i < |db.places| && db.places[i] == p;
    var owner := FindCafeById(db.cafes, p.cafeId).value;
    assert owner in db.cafes && p.cafeId < db.nextCafeId;
  }

  lemma InsertedPlacesApart(same: SameValue, db: Db, catalog: Catalog, now: int)
    requires KeyedDb(db) && Valid(db, catalog)
    ensures var after := Seeded(same, db, catalog, now);
            var inserted := NewPlaces(db.places, after.cafes, AllReferences(catalog), db.nextPlaceId, now);
            UniqueKeys(inserted) && UniqueCafeProviders(inserted) && UniquePlaceIds(inserted)
  {
    hide Seeded, AllReferences, FindPlace, FindCafe, NewPlaces, MissingReferences, CafesAfter, NewCafes, KeyedDb,
         ReferenceFits;
    var refs, after := AllReferences(catalog), Seeded(same, db, catalog, now);
    var missing := MissingReferences(db.places, refs);
    MissingReferencesMembers(db.places, refs);
    MissingReferencesConsistent(db.places, refs);
    SeededCafesKeyed(same, db, catalog, now);
    forall k | 0 <= k < |missing|
      ensures FindCafe(after.cafes, missing[k].origin).Some?
    {
      assert missing[k] in missing;
      ReferenceHasCafe(same, db, catalog, now, missing[k]);
    }
    forall j, k | 0 <= j < k < |missing|
      ensures !(CafeIdOf(after.cafes, missing[j].origin) == CafeIdOf(after.cafes, missing[k].origin)
                && missing[j].key.provider == missing[k].key.provider)
    {
      InsertedApart(after.cafes, missing[j], missing[k]);
    }
  }

  lemma SeededCafesKeyed(same: SameValue, db: Db, catalog: Catalog, now: int)
    requires KeyedDb(db) && Valid(db, catalog)
    ensures var after := Seeded(same, db, catalog, now);
            && UniqueOrigins(after.cafes) && UniqueCafeIds(after.cafes)
            && (forall i :: 0 <= i < |after.cafes| ==> after.cafes[i].id < after.nextCafeId)
  {
    hide KeyedDb, CafesAfter, NewCafes, PlacesAfter, NewPlaces, AllReferences, ReferenceFits;
    CafesStayKeyed(same, db, catalog.newCafeCandidates);
  }

  /** A cafe row keeps its place and its id. */
  lemma StoredCafeStays(same: SameValue, db: Db, catalog: Catalog, now: int, id: nat)
    requires FindCafeById(db.cafes, id).Some?
    ensures FindCafeById(Seeded(same, db, catalog, now).cafes, id).Some?
  {
    hide CafeAfter, NewCafes, PlacesAfter, NewPlaces, FindCafeById, AllReferences;
    var c, after := FindCafeById(db.cafes, id).value, Seeded(same, db, catalog, now);
    var i :| 0 <= i < |db.cafes| && db.cafes[i] == c;
    CafeAfterKeepsIdentity(same, catalog.newCafeCandidates, c);
    assert after.cafes[i].id == id && after.cafes[i] in after.cafes;
  }

  /** Applying an accepted catalogue keeps every database constraint. */
  lemma SeedKeepsConstraints(same: SameValue, db: Db, catalog: Catalog, now: int)
    requires KeyedDb(db) && Valid(db, catalog)
    ensures var after := Seeded(same, db, catalog, now); KeyedDb(after) && ConstraintsHold(after)
  {
    hide AllReferences, FindPlace, FindCafe, NewPlaces, MissingReferences, CafesAfter, NewCafes, PlacesAfter,
         PlaceAfter, ReferenceFits, ConsistentReferences, UniqueKeys, UniqueCafeProviders, UniquePlaceIds,
         PlacesApart, FindCafeById;
    var refs, after := AllReferences(catalog), Seeded(same, db, catalog, now);
    var stored := PlacesAfter(refs, now, db.places);
    var inserted := NewPlaces(db.places, after.cafes, refs, db.nextPlaceId, now);
    SeededCafesKeyed(same, db, catalog, now);
    StoredPlacesStay(db, refs, now);
    InsertedPlacesApart(same, db, catalog, now);
    MissingReferencesMembers(db.places, refs);
    var missing := MissingReferences(db.places, refs);
    forall i, k | 0 <= i < |stored| && 0 <= k < |inserted|
      ensures PlacesApart(stored[i], inserted[k])
    {
      assert missing[k] in missing && db.places[i] in db.places;
      InsertedFitsStored(same, db, catalog, now, db.places[i], missing[k], db.nextPlaceId + k);
      ApartByIdentity(db.places[i], stored[i], inserted[k]);
    }
    AppendPlaces(stored, inserted);
    forall i | 0 <= i < |after.places|
      ensures FindCafeById(after.cafes, after.places[i].cafeId).Some? && after.places[i].id < after.nextPlaceId
    {
      if i < |stored| {
        StoredCafeStays(same, db, catalog, now, db.places[i].cafeId);
      } else {
        var r := missing[i - |stored|];
        assert r in missing;
        ReferenceHasCafe(same, db, catalog, now, r);
      }
    }
  }

  lemma ApartByIdentity(p: Place, q: Place, other: Place)
    requires q.id == p.id && q.cafeId == p.cafeId && q.key == p.key && PlacesApart(p, other)
    ensures PlacesApart(q, other)
  {
  }

  lemma StoredPlacesStay(db: Db, refs: seq<Reference>, now: int)
    requires KeyedDb(db) && ConstraintsHold(db)
    ensures var stored := PlacesAfter(refs, now, db.places);
            && UniqueKeys(stored) && UniqueCafeProviders(stored) && UniquePlaceIds(stored)
            && forall i :: 0 <= i < |stored| ==>
                             stored[i].id == db.places[i].id && stored[i].cafeId == db.places[i].cafeId
                             && stored[i].key == db.places[i].key
  {
    hide PlaceAfter;
    forall i | 0 <= i < |db.places|
      ensures PlacesAfter(refs, now, db.places)[i].id == db.places[i].id
      ensures PlacesAfter(refs, now, db.places)[i].cafeId == db.places[i].cafeId
      ensures PlacesAfter(refs, now, db.places)[i].key == db.places[i].key
    {
      PlaceAfterKeepsIdentity(refs, now, db.places[i]);
    }
  }

  // ---------------------------------------------------------------------------------------
  // What an accepted catalogue achieves
  // ---------------------------------------------------------------------------------------

  lemma FindReferenceIsUnique(refs: seq<Reference>, r: Reference)
    requires ConsistentReferences(refs) && r in refs
    ensures FindReference(refs, r.key) == Some(r)
  {
    var found := FindReference(refs, r.key).value;
    var i :| 0 <= i < |refs| && refs[i] == r;
    var j :| 0 <= j < |refs| && refs[j] == found;
  }

  lemma FindPlaceIsUnique(places: seq<Place>, p: Place)
    requires UniqueKeys(places) && p in places
    ensures FindPlace(places, p.key) == Some(p)
  {
    var found := FindPlace(places, p.key).value;
    var i :| 0 <= i < |places| && places[i] == p;
    var j :| 0 <= j < |places| && places[j] == found;
  }

  /** An active row with the values of its reference, owned by the cafe the reference names. */
  predicate Attached(db: Db, r: Reference, now: int) {
    var found := FindPlace(db.places, r.key);
    && found.Some? && !PlaceChanges(found.value, r) && found.value.lastSeenAt == now
    && var owner := FindCafeById(db.cafes, found.value.cafeId);
       owner.Some? && owner.value.origin == r.origin
  }

  lemma StoredReferenceAttached(same: SameValue, db: Db, catalog: Catalog, now: int, r: Reference)
    requires KeyedDb(db) && Valid(db, catalog) && r in AllReferences(catalog) && FindPlace(db.places, r.key).Some?
    ensures Attached(Seeded(same, db, catalog, now), r, now)
  {
    hide AllReferences, FindCafe, FindCafeProvider, FindPlace, NewPlaces, MissingReferences, CafesAfter, NewCafes,
         PlacesAfter, ConsistentReferences, UniqueKeys, FindCafeById, FindCandidate, KeyedDb, UniqueCafeProviders,
         UniqueOrigins, Retires;
    var refs, after := AllReferences(catalog), Seeded(same, db, catalog, now);
    SeedKeepsConstraints(same, db, catalog, now);
    var k :| 0 <= k < |refs| && refs[k] == r;
    assert ReferenceFits(db, catalog.newCafeCandidates, r);
    var p := FindPlace(db.places, r.key).value;
    var i :| 0 <= i < |db.places| && db.places[i] == p;
    FindReferenceIsUnique(refs, r);
    var q := after.places[i];
    assert q == PlaceAfter(refs, now, p) && q in after.places;
    FindPlaceIsUnique(after.places, q);
    OwnerStays(same, db, catalog, now, p.cafeId);
  }

  lemma NewReferenceAttached(same: SameValue, db: Db, catalog: Catalog, now: int, r: Reference)
    requires KeyedDb(db) && Valid(db, catalog) && r in AllReferences(catalog) && FindPlace(db.places, r.key).None?
    ensures Attached(Seeded(same, db, catalog, now), r, now)
  {
    hide AllReferences, FindCafe, FindPlace, NewPlaces, MissingReferences, CafesAfter, NewCafes, PlacesAfter, KeyedDb,
         ConsistentReferences, UniqueKeys, FindCafeById, UniqueCafeProviders, UniqueOrigins, PlaceAfter, Valid;
    var refs, after := AllReferences(catalog), Seeded(same, db, catalog, now);
    SeedKeepsConstraints(same, db, catalog, now);
    SeededCafesKeyed(same, db, catalog, now);
    MissingReferencesMembers(db.places, refs);
    var missing := MissingReferences(db.places, refs);
    var j :| 0 <= j < |missing| && missing[j] == r;
    var q := after.places[|db.places| + j];
    assert q == InsertedPlace(after.cafes, r, db.nextPlaceId + j, now) && q in after.places;
    FindPlaceIsUnique(after.places, q);
    ReferenceHasCafe(same, db, catalog, now, r);
    FindCafeByIdIsUnique(after.cafes, FindCafe(after.cafes, r.origin).value);
  }

  /** Every reference of an accepted catalogue ends attached to the cafe with its origin. */
  lemma EveryReferenceEndsAttached(same: SameValue, db: Db, catalog: Catalog, now: int, r: Reference)
    requires KeyedDb(db) && Valid(db, catalog) && r in AllReferences(catalog)
    ensures Attached(Seeded(same, db, catalog, now), r, now)
  {
    hide *;
    if FindPlace(db.places, r.key).Some? {
      StoredReferenceAttached(same, db, catalog, now, r);
    } else {
      NewReferenceAttached(same, db, catalog, now, r);
    }
  }

  lemma OwnerStays(same: SameValue, db: Db, catalog: Catalog, now: int, id: nat)
    requires KeyedDb(db) && Valid(db, catalog) && FindCafeById(db.cafes, id).Some?
    ensures var found := FindCafeById(Seeded(same, db, catalog, now).cafes, id);
            found.Some? && found.value.origin == FindCafeById(db.cafes, id).value.origin
  {
    hide CafeAfter, NewCafes, PlacesAfter, NewPlaces, FindCafeById, AllReferences, CafesAfter, KeyedDb, ReferenceFits;
    var c, after := FindCafeById(db.cafes, id).value, Seeded(same, db, catalog, now);
    var i :| 0 <= i < |db.cafes| && db.cafes[i] == c;
    CafeAfterKeepsIdentity(same, catalog.newCafeCandidates, c);
    assert after.cafes[i] in after.cafes;
    SeededCafesKeyed(same, db, catalog, now);
    FindCafeByIdIsUnique(after.cafes, after.cafes[i]);
  }

  /** Inserted, updated and unchanged rows are the inputs; the inserted ones are the rows added. */
  lemma {:induction false} CandidateCounts(same: SameValue, stored: seq<Cafe>, candidates: seq<Candidate>)
    ensures var r := CountCafes(same, stored, candidates);
            && r.cafeInserted + r.cafeUpdated + r.cafeUnchanged == |candidates|
            && r.cafeInserted == |MissingCandidates(stored, candidates)|
            && r.providerInserted == r.providerUpdated == r.providerUnchanged == r.providerDeactivated == 0
  {
    hide FindCafe, CafeChanges;
    if candidates != [] {
      CandidateCounts(same, stored, candidates[..|candidates| - 1]);
    }
  }

  lemma {:induction false} ReferenceCounts(counts: Report, stored: seq<Place>, refs: seq<Reference>)
    requires counts.providerInserted == counts.providerUpdated == 0
    requires counts.providerUnchanged == counts.providerDeactivated == 0
    ensures var r := CountReferences(counts, stored, refs);
            && r.providerInserted + r.providerUpdated + r.providerUnchanged == |refs|
            && r.providerInserted == |MissingReferences(stored, refs)| && r.providerDeactivated == 0
            && r.cafeInserted == counts.cafeInserted && r.cafeUpdated == counts.cafeUpdated
            && r.cafeUnchanged == counts.cafeUnchanged
  {
    hide FindPlace, PlaceChanges;
    if refs != [] {
      ReferenceCounts(counts, stored, refs[..|refs| - 1]);
    }
  }

  /** The rows retired by a catalogue. */
  function Retired(places: seq<Place>, refs: seq<Reference>): set<nat> {
    set i: nat | i < |places| && Retires(refs, places[i])
  }

  lemma {:induction false} RetiredCounts(counts: Report, places: seq<Place>, refs: seq<Reference>)
    ensures CountRetired(counts, places, refs)
         == counts.(providerDeactivated := counts.providerDeactivated + |Retired(places, refs)|)
  {
    hide Retires;
    if places == [] {
      assert Retired(places, refs) == {};
    } else {
      var before, n := places[..|places| - 1], |places| - 1;
      RetiredCounts(counts, before, refs);
      if Retires(refs, places[n]) {
        assert Retired(places, refs) == Retired(before, refs) + {n};
      } else {
        assert Retired(places, refs) == Retired(before, refs);
      }
    }
  }

  /**
   The report accounts for every input and for every row added or retired.
   */
  lemma ReportIsExact(same: SameValue, db: Db, catalog: Catalog, now: int)
    ensures var report, after := ReportOf(same, db, catalog), Seeded(same, db, catalog, now);
            && report.cafeInserted + report.cafeUpdated + report.cafeUnchanged == |catalog.newCafeCandidates|
            && report.providerInserted + report.providerUpdated + report.providerUnchanged == |AllReferences(catalog)|
            && |after.cafes| == |db.cafes| + report.cafeInserted
            && |after.places| == |db.places| + report.providerInserted
            && report.providerDeactivated == |Retired(db.places, AllReferences(catalog))|
  {
    hide AllReferences, CountCafes, CountReferences, CountRetired, MissingCandidates, MissingReferences, Retired;
    var refs := AllReferences(catalog);
    CandidateCounts(same, db.cafes, catalog.newCafeCandidates);
    var counts := CountCafes(same, db.cafes, catalog.newCafeCandidates);
    ReferenceCounts(counts, db.places, refs);
    RetiredCounts(CountReferences(counts, db.places, refs), db.places, refs);
  }

  /**
   Only links this pipeline owns and the catalogue no longer names lose their activity, all of them do, and
   a row the catalogue does not name changes in nothing else.
   */
  lemma OnlyManagedLinksRetire(same: SameValue, db: Db, catalog: Catalog, now: int, i: nat)
    requires i < |db.places|
    ensures var before, after := db.places[i], Seeded(same, db, catalog, now).places[i];
            var named := exists r :: r in AllReferences(catalog) && r.key == before.key;
            && (before.active && !after.active <==>
                && before.active && before.key.provider == "kakao"
                && before.matchMethod in MANAGED_KAKAO_MATCH_METHODS && !named)
            && (!named ==> after == before.(active := after.active))
  {
    hide AllReferences, FindReference, NewPlaces, NewCafes, CafesAfter, PlacesAfter;
    var refs := AllReferences(catalog);
    if FindReference(refs, db.places[i].key).Some? {
      assert FindReference(refs, db.places[i].key).value in refs;
    }
  }

  // ---------------------------------------------------------------------------------------
  // Applying a catalogue again
  // ---------------------------------------------------------------------------------------

  lemma WrittenIsSettled(same: SameValue, stored: Columns, incoming: Columns)
    requires Reflexive(same)
    ensures !CafeChanges(same, Written(same, stored, incoming), incoming)
  {
    var written := Written(same, stored, incoming);
    forall column | column in incoming
      ensures !Changes(same, written, incoming, column)
    {
      assert same(column, incoming[column], incoming[column]);
    }
  }

  /** After an upsert every candidate has a row that agrees with it. */
  lemma CandidateIsSettled(same: SameValue, db: Db, catalog: Catalog, now: int, c: Candidate)
    requires Reflexive(same) && KeyedDb(db) && Valid(db, catalog) && c in catalog.newCafeCandidates
    ensures var found := FindCafe(Seeded(same, db, catalog, now).cafes, c.origin);
            found.Some? && !CafeChanges(same, found.value.columns, c.columns)
  {
    hide NewCafes, PlacesAfter, NewPlaces, AllReferences, CafesAfter, KeyedDb, ReferenceFits, Written, CafeChanges,
         FindCafe, FindCandidate, MissingCandidates, Reflexive;
    var candidates, after := catalog.newCafeCandidates, Seeded(same, db, catalog, now);
    SeededCafesKeyed(same, db, catalog, now);
    if FindCafe(db.cafes, c.origin).Some? {
      var cafe := FindCafe(db.cafes, c.origin).value;
      var i :| 0 <= i < |db.cafes| && db.cafes[i] == cafe;
      FindCandidateIsUnique(candidates, c);
      assert after.cafes[i] == cafe.(columns := Written(same, cafe.columns, c.columns))
             && after.cafes[i] in after.cafes;
      FindCafeIsUnique(after.cafes, after.cafes[i]);
      WrittenIsSettled(same, cafe.columns, c.columns);
    } else {
      MissingCandidatesMembers(db.cafes, candidates);
      var missing := MissingCandidates(db.cafes, candidates);
      var j :| 0 <= j < |missing| && missing[j] == c;
      var created := after.cafes[|db.cafes| + j];
      assert created == Cafe(db.nextCafeId + j, c.origin, c.columns) && created in after.cafes;
      FindCafeIsUnique(after.cafes, created);
      ReflexiveIsSettled(same, c.columns);
    }
  }

  lemma ReflexiveIsSettled(same: SameValue, columns: Columns)
    requires Reflexive(same)
    ensures !CafeChanges(same, columns, columns)
  {
    forall column | column in columns
      ensures !Changes(same, columns, columns, column)
    {
      assert same(column, columns[column], columns[column]);
    }
  }

  lemma FindCandidateIsUnique(candidates: seq<Candidate>, c: Candidate)
    requires UniqueCandidates(candidates) && c in candidates
    ensures FindCandidate(candidates, c.origin) == Some(c)
  {
    var found := FindCandidate(candidates, c.origin).value;
    var i :| 0 <= i < |candidates| && candidates[i] == c;
    var j :| 0 <= j < |candidates| && candidates[j] == found;
  }

  /** After an upsert the same catalogue still passes the validation. */
  lemma ReferenceStillFits(same: SameValue, db: Db, catalog: Catalog, now: int, r: Reference)
    requires KeyedDb(db) && Valid(db, catalog) && r in AllReferences(catalog)
    ensures ReferenceFits(Seeded(same, db, catalog, now), catalog.newCafeCandidates, r)
  {
    hide AllReferences, Seeded, FindCafe, FindCafeProvider, FindPlace, UniqueKeys, FindCafeById, FindCandidate,
         KeyedDb, Valid, UniqueOrigins, PlaceChanges;
    var after := Seeded(same, db, catalog, now);
    SeedKeepsConstraints(same, db, catalog, now);
    SeededCafesKeyed(same, db, catalog, now);
    EveryReferenceEndsAttached(same, db, catalog, now, r);
    ReferenceHasCafe(same, db, catalog, now, r);
    var p := FindPlace(after.places, r.key).value;
    var target := FindCafe(after.cafes, r.origin).value;
    FindCafeIsUnique(after.cafes, FindCafeById(after.cafes, p.cafeId).value);
    var current := FindCafeProvider(after.places, target.id, r.key.provider);
    if current.Some? {
      var i :| 0 <= i < |after.places| && after.places[i] == p;
      var j :| 0 <= j < |after.places| && after.places[j] == current.value;
    }
  }

  lemma StillValid(same: SameValue, db: Db, catalog: Catalog, now: int)
    requires KeyedDb(db) && Valid(db, catalog)
    ensures Valid(Seeded(same, db, catalog, now), catalog)
  {
    hide AllReferences, Seeded, ReferenceFits, ConsistentReferences, UniqueCandidates, KeyedDb, ConstraintsHold;
    SeedKeepsConstraints(same, db, catalog, now);
    var refs := AllReferences(catalog);
    forall i | 0 <= i < |refs|
      ensures ReferenceFits(Seeded(same, db, catalog, now), catalog.newCafeCandidates, refs[i])
    {
      assert refs[i] in refs;
      ReferenceStillFits(same, db, catalog, now, refs[i]);
    }
  }

  /** After an upsert no row is left to retire. */
  lemma NothingLeftToRetire(same: SameValue, db: Db, catalog: Catalog, now: int, p: Place)
    requires p in Seeded(same, db, catalog, now).places
    ensures !Retires(AllReferences(catalog), p)
  {
    hide AllReferences, FindReference, NewPlaces, NewCafes, CafesAfter, PlacesAfter, MissingReferences;
    var refs, after := AllReferences(catalog), Seeded(same, db, catalog, now);
    var i :| 0 <= i < |after.places| && after.places[i] == p;
    if i < |db.places| {
      PlaceAfterKeepsIdentity(refs, now, db.places[i]);
    } else {
      MissingReferencesMembers(db.places, refs);
      var missing := MissingReferences(db.places, refs);
      assert missing[i - |db.places|] in missing;
    }
  }

  /** Every candidate has a row that agrees with it, and every reference a row with its values. */
  ghost predicate Settled(same: SameValue, db: Db, catalog: Catalog) {
    var refs := AllReferences(catalog);
    && (forall c :: c in catalog.newCafeCandidates ==> CafeSettled(same, db, c))
    && (forall r :: r in refs ==> PlaceSettled(db, r))
    && (forall p :: p in db.places ==> !Retires(refs, p))
  }

  predicate CafeSettled(same: SameValue, db: Db, c: Candidate) {
    var found := FindCafe(db.cafes, c.origin); found.Some? && !CafeChanges(same, found.value.columns, c.columns)
  }

  predicate PlaceSettled(db: Db, r: Reference) {
    var found := FindPlace(db.places, r.key); found.Some? && !PlaceChanges(found.value, r)
  }

  lemma SeededIsSettled(same: SameValue, db: Db, catalog: Catalog, now: int)
    requires Reflexive(same) && KeyedDb(db) && Valid(db, catalog)
    ensures Settled(same, Seeded(same, db, catalog, now), catalog)
  {
    hide Seeded, AllReferences, FindCafe, FindPlace, FindCafeById, CafeChanges, PlaceChanges, Retires, KeyedDb,
         Valid, Reflexive;
    var after := Seeded(same, db, catalog, now);
    forall c | c in catalog.newCafeCandidates
      ensures CafeSettled(same, after, c)
    {
      CandidateIsSettled(same, db, catalog, now, c);
    }
    forall r | r in AllReferences(catalog)
      ensures PlaceSettled(after, r)
    {
      EveryReferenceEndsAttached(same, db, catalog, now, r);
    }
    forall p | p in after.places
      ensures !Retires(AllReferences(catalog), p)
    {
      NothingLeftToRetire(same, db, catalog, now, p);
    }
  }

  lemma {:induction false} SettledCandidateCounts(same: SameValue, db: Db, candidates: seq<Candidate>)
    requires forall c :: c in candidates ==> CafeSettled(same, db, c)
    ensures CountCafes(same, db.cafes, candidates) == Report(0, 0, |candidates|, 0, 0, 0, 0)
    ensures MissingCandidates(db.cafes, candidates) == []
  {
    hide FindCafe, CafeChanges;
    if candidates != [] {
      assert candidates[|candidates| - 1] in candidates;
      SettledCandidateCounts(same, db, candidates[..|candidates| - 1]);
    }
  }

  lemma {:induction false} SettledReferenceCounts(counts: Report, db: Db, refs: seq<Reference>)
    requires counts.providerUnchanged == 0
    requires forall r :: r in refs ==> PlaceSettled(db, r)
    ensures CountReferences(counts, db.places, refs) == counts.(providerUnchanged := |refs|)
    ensures MissingReferences(db.places, refs) == []
  {
    hide FindPlace, PlaceChanges;
    if refs != [] {
      assert refs[|refs| - 1] in refs;
      SettledReferenceCounts(counts, db, refs[..|refs| - 1]);
    }
  }

  /** A row that a second application may touch: only when it was last seen. */
  predicate OnlySeenAgain(p: Place, q: Place) {
    q == p.(lastSeenAt := q.lastSeenAt)
  }

  lemma SettledPlaceStays(db: Db, catalog: Catalog, same: SameValue, now: int, p: Place)
    requires Settled(same, db, catalog) && UniqueKeys(db.places) && p in db.places
    ensures var q := PlaceAfter(AllReferences(catalog), now, p);
            OnlySeenAgain(p, q) && (FindReference(AllReferences(catalog), p.key).None? ==> q == p)
  {
    hide AllReferences, FindReference, FindPlace, CafeSettled, UniqueKeys;
    var refs := AllReferences(catalog);
    if FindReference(refs, p.key).Some? {
      var r := FindReference(refs, p.key).value;
      assert PlaceSettled(db, r);
      FindPlaceIsUnique(db.places, p);
    }
  }

  lemma SettledCafeStays(db: Db, catalog: Catalog, same: SameValue, c: Cafe)
    requires Settled(same, db, catalog) && UniqueOrigins(db.cafes) && c in db.cafes
    ensures CafeAfter(same, catalog.newCafeCandidates, c) == c
  {
    hide AllReferences, FindCafe, FindCandidate, UniqueOrigins, PlaceSettled;
    var found := FindCandidate(catalog.newCafeCandidates, c.origin);
    if found.Some? {
      var candidate := found.value;
      assert CafeSettled(same, db, candidate);
      FindCafeIsUnique(db.cafes, c);
      assert forall column :: column in candidate.columns ==> !Changes(same, c.columns, candidate.columns, column);
      assert Written(same, c.columns, candidate.columns) == c.columns;
    }
  }

  /**
   Applying an accepted catalogue again, at any time, is accepted, reports no insertion, update or
   retirement, and changes nothing but when the named places were last seen.
   */
  lemma ReapplyingOnlyTouchesLastSeen(same: SameValue, db: Db, catalog: Catalog, now: int, later: int)
    requires Reflexive(same) && KeyedDb(db) && Valid(db, catalog)
    ensures var once := Seeded(same, db, catalog, now);
            var twice := Seeded(same, once, catalog, later);
            && Valid(once, catalog)
            && ReportOf(same, once, catalog)
               == Report(0, 0, |catalog.newCafeCandidates|, 0, 0, |AllReferences(catalog)|, 0)
            && twice.cafes == once.cafes && twice.nextCafeId == once.nextCafeId && twice.nextPlaceId == once.nextPlaceId
            && |twice.places| == |once.places|
            && forall i :: 0 <= i < |once.places| ==> OnlySeenAgain(once.places[i], twice.places[i])
  {
    hide *;
    var once := Seeded(same, db, catalog, now);
    StillValid(same, db, catalog, now);
    SeedKeepsConstraints(same, db, catalog, now);
    SeededIsSettled(same, db, catalog, now);
    SettledIsFixed(same, once, catalog, later);
  }

  lemma SettledIsFixed(same: SameValue, db: Db, catalog: Catalog, now: int)
    requires ConstraintsHold(db) && Settled(same, db, catalog)
    ensures ReportOf(same, db, catalog) == Report(0, 0, |catalog.newCafeCandidates|, 0, 0, |AllReferences(catalog)|, 0)
    ensures var after := Seeded(same, db, catalog, now);
            && after.cafes == db.cafes && after.nextCafeId == db.nextCafeId && after.nextPlaceId == db.nextPlaceId
            && |after.places| == |db.places|
            && forall i :: 0 <= i < |db.places| ==> OnlySeenAgain(db.places[i], after.places[i])
  {
    hide AllReferences, CountCafes, CountReferences, CountRetired, MissingCandidates, MissingReferences,
         CafeSettled, PlaceSettled, UniqueKeys, UniqueOrigins, UniqueCafeProviders, Retires, CafeAfter, PlaceAfter,
         OnlySeenAgain, FindReference;
    var refs, candidates := AllReferences(catalog), catalog.newCafeCandidates;
    SettledCandidateCounts(same, db, candidates);
    var counts := CountCafes(same, db.cafes, candidates);
    SettledReferenceCounts(counts, db, refs);
    RetiredCounts(CountReferences(counts, db.places, refs), db.places, refs);
    assert Retired(db.places, refs) == {} by {
      assert forall i :: 0 <= i < |db.places| ==> db.places[i] in db.places;
    }
    forall i | 0 <= i < |db.cafes|
      ensures CafeAfter(same, candidates, db.cafes[i]) == db.cafes[i]
    {
      SettledCafeStays(db, catalog, same, db.cafes[i]);
    }
    forall i | 0 <= i < |db.places|
      ensures OnlySeenAgain(db.places[i], PlaceAfter(refs, now, db.places[i]))
    {
      SettledPlaceStays(db, catalog, same, now, db.places[i]);
    }
    assert CafesAfter(same, candidates, db.cafes) == db.cafes;
  }
}
