/**
 What the provider catalogue upsert leaves behind, row by row and column by column (`seed_provider_cafes` in
 backend/scripts/seed_provider_cafes.py), and that its report counts exactly the rows it changed.
 */
module ProviderSeedEffects {
  import opened Outcomes
  import opened ProviderSeed

  // ---------------------------------------------------------------------------------------
  // Cafes
  // ---------------------------------------------------------------------------------------

  /**
   A stored cafe takes each column of its candidate that it does not have or that compares as different. Columns
   that agree, and those the candidate does not carry, stay as they were.
   */
  ghost predicate TakesColumns(same: SameValue, before: Cafe, after: Cafe, incoming: Columns) {
    && after.id == before.id && after.origin == before.origin
    && (forall column :: column in after.columns <==> column in before.columns || column in incoming)
    && forall column :: column in after.columns ==>
                          after.columns[column] ==
                          if column in incoming
                             && (column !in before.columns || !same(column, before.columns[column], incoming[column]))
                          then incoming[column] else before.columns[column]
  }

  lemma StoredCafeTakesColumns(same: SameValue, db: Db, catalog: Catalog, now: int, i: nat, c: Candidate)
    requires UniqueCandidates(catalog.newCafeCandidates) && i < |db.cafes|
    requires c in catalog.newCafeCandidates && c.origin == db.cafes[i].origin
    ensures TakesColumns(same, db.cafes[i], Seeded(same, db, catalog, now).cafes[i], c.columns)
  {
    hide NewCafes, NewPlaces, PlacesAfter, AllReferences, FindCandidate, UniqueCandidates, Written;
    FindCandidateIsUnique(catalog.newCafeCandidates, c);
    WrittenTakesColumns(same, db.cafes[i], c.columns);
  }

  lemma WrittenTakesColumns(same: SameValue, cafe: Cafe, incoming: Columns)
    ensures TakesColumns(same, cafe, cafe.(columns := Written(same, cafe.columns, incoming)), incoming)
  {
  }

  lemma OtherCafeStays(same: SameValue, db: Db, catalog: Catalog, now: int, i: nat)
    requires i < |db.cafes| && forall c :: c in catalog.newCafeCandidates ==> c.origin != db.cafes[i].origin
    ensures Seeded(same, db, catalog, now).cafes[i] == db.cafes[i]
  {
    hide NewCafes, NewPlaces, PlacesAfter, AllReferences, FindCandidate;
  }

  predicate IsCafeOf(cafe: Cafe, c: Candidate) {
    cafe.origin == c.origin && cafe.columns == c.columns
  }

  /** The rows added are those of the candidates without a stored row, with all their columns and fresh ids. */
  lemma NewCafesAreCandidates(same: SameValue, db: Db, catalog: Catalog, now: int)
    ensures var after := Seeded(same, db, catalog, now);
            && |after.cafes| >= |db.cafes|
            && (forall j :: |db.cafes| <= j < |after.cafes| ==>
                              && after.cafes[j].id == db.nextCafeId + (j - |db.cafes|)
                              && exists c :: c in catalog.newCafeCandidates && IsCafeOf(after.cafes[j], c)
                                             && forall s :: s in db.cafes ==> s.origin != c.origin)
            && forall c :: c in catalog.newCafeCandidates && (forall s :: s in db.cafes ==> s.origin != c.origin) ==>
                             exists j :: |db.cafes| <= j < |after.cafes| && IsCafeOf(after.cafes[j], c)
  {
    hide NewPlaces, PlacesAfter, AllReferences, FindCafe, CafeAfter, MissingCandidates;
    var after, missing := Seeded(same, db, catalog, now), MissingCandidates(db.cafes, catalog.newCafeCandidates);
    MissingCandidatesMembers(db.cafes, catalog.newCafeCandidates);
    forall j | |db.cafes| <= j < |after.cafes|
      ensures after.cafes[j].id == db.nextCafeId + (j - |db.cafes|)
      ensures exists c :: c in catalog.newCafeCandidates && IsCafeOf(after.cafes[j], c)
                          && forall s :: s in db.cafes ==> s.origin != c.origin
    {
      assert missing[j - |db.cafes|] in missing;
    }
    forall c | c in catalog.newCafeCandidates && (forall s :: s in db.cafes ==> s.origin != c.origin)
      ensures exists j :: |db.cafes| <= j < |after.cafes| && IsCafeOf(after.cafes[j], c)
    {
      assert FindCafe(db.cafes, c.origin).None?;
      var k :| 0 <= k < |missing| && missing[k] == c;
      assert IsCafeOf(after.cafes[|db.cafes| + k], c);
    }
  }

  // ---------------------------------------------------------------------------------------
  // Links
  // ---------------------------------------------------------------------------------------

  /** Address, activity, match rule and distance are those of the reference. */
  predicate Agrees(p: Place, r: Reference) {
    p.detailUrl == r.directUrl && p.active && p.matchMethod == r.matchRule && p.matchDistanceM == r.matchDistanceM
  }

  /**
   A named link ends in agreement with its reference and seen now, on the cafe it was on; it is verified now if it
   did not agree before, and keeps its verification otherwise.
   */
  lemma NamedLinkAgrees(same: SameValue, db: Db, catalog: Catalog, now: int, j: nat, r: Reference)
    requires ConsistentReferences(AllReferences(catalog)) && j < |db.places|
    requires r in AllReferences(catalog) && r.key == db.places[j].key
    ensures var p, q := db.places[j], Seeded(same, db, catalog, now).places[j];
            && Agrees(q, r) && q.lastSeenAt == now && q.id == p.id && q.cafeId == p.cafeId && q.key == p.key
            && q.verifiedAt == if Agrees(p, r) then p.verifiedAt else now
  {
    hide NewCafes, NewPlaces, CafesAfter, AllReferences, FindReference, ConsistentReferences;
    FindReferenceIsUnique(AllReferences(catalog), r);
  }

  /** A link the catalogue does not name loses its activity if it is a Kakao link of this pipeline, and nothing else. */
  lemma UnnamedLinkRetires(same: SameValue, db: Db, catalog: Catalog, now: int, j: nat)
    requires j < |db.places| && forall r :: r in AllReferences(catalog) ==> r.key != db.places[j].key
    ensures var p, q := db.places[j], Seeded(same, db, catalog, now).places[j];
            var managed := p.key.provider == "kakao"
                           && p.matchMethod in {"exact_name", "exact_phone", "exact_name_and_phone",
                                                "exact_name_and_address", "exact_phone_and_address",
                                                "exact_name_and_phone_and_address"};
            q == p.(active := p.active && !managed)
  {
    hide NewCafes, NewPlaces, CafesAfter, AllReferences, FindReference;
  }

  predicate IsLinkOf(p: Place, r: Reference, now: int) {
    p.key == r.key && Agrees(p, r) && p.verifiedAt == now && p.lastSeenAt == now
  }

  /** The links added are those of the references whose place had none, verified and seen now, with fresh ids. */
  lemma NewLinksAreReferences(same: SameValue, db: Db, catalog: Catalog, now: int)
    ensures var after := Seeded(same, db, catalog, now);
            && |after.places| >= |db.places|
            && (forall j :: |db.places| <= j < |after.places| ==>
                              && after.places[j].id == db.nextPlaceId + (j - |db.places|)
                              && exists r :: r in AllReferences(catalog) && IsLinkOf(after.places[j], r, now)
                                             && forall p :: p in db.places ==> p.key != r.key)
            && forall r :: r in AllReferences(catalog) && (forall p :: p in db.places ==> p.key != r.key) ==>
                             exists j :: |db.places| <= j < |after.places| && IsLinkOf(after.places[j], r, now)
  {
    hide NewCafes, PlaceAfter, CafesAfter, AllReferences, FindPlace, MissingReferences, CafeIdOf;
    var after, refs := Seeded(same, db, catalog, now), AllReferences(catalog);
    var missing := MissingReferences(db.places, refs);
    MissingReferencesMembers(db.places, refs);
    forall j | |db.places| <= j < |after.places|
      ensures after.places[j].id == db.nextPlaceId + (j - |db.places|)
      ensures exists r :: r in refs && IsLinkOf(after.places[j], r, now)
                          && forall p :: p in db.places ==> p.key != r.key
    {
      assert missing[j - |db.places|] in missing;
    }
    forall r | r in refs && (forall p :: p in db.places ==> p.key != r.key)
      ensures exists j :: |db.places| <= j < |after.places| && IsLinkOf(after.places[j], r, now)
    {
      assert FindPlace(db.places, r.key).None?;
      var k :| 0 <= k < |missing| && missing[k] == r;
      assert IsLinkOf(after.places[|db.places| + k], r, now);
    }
  }

  // ---------------------------------------------------------------------------------------
  // The report
  // ---------------------------------------------------------------------------------------

  /** The stored rows that some candidate differs from. */
  ghost function UpdatedCafes(same: SameValue, stored: seq<Cafe>, candidates: seq<Candidate>): set<nat> {
    set i: nat | i < |stored| && UpdatesCafe(same, stored[i], candidates)
  }

  ghost predicate UpdatesCafe(same: SameValue, cafe: Cafe, candidates: seq<Candidate>) {
    exists c :: c in candidates && c.origin == cafe.origin && CafeChanges(same, cafe.columns, c.columns)
  }

  lemma {:induction false} UpdatedCafesAreCounted(same: SameValue, stored: seq<Cafe>, candidates: seq<Candidate>)
    requires UniqueOrigins(stored) && UniqueCandidates(candidates)
    ensures CountCafes(same, stored, candidates).cafeUpdated == |UpdatedCafes(same, stored, candidates)|
  {
    hide CafeChanges, FindCafe;
    if candidates == [] {
      assert UpdatedCafes(same, stored, candidates) == {};
    } else {
      var before, last := candidates[..|candidates| - 1], candidates[|candidates| - 1];
      assert candidates == before + [last];
      UpdatedCafesAreCounted(same, stored, before);
      OneMoreCandidate(same, stored, before, last);
    }
  }

  lemma OneMoreChange(same: SameValue, stored: seq<Cafe>, before: seq<Candidate>, last: Candidate, i: nat)
    requires UniqueCandidates(before + [last]) && i < |stored|
    ensures UpdatesCafe(same, stored[i], before + [last]) <==>
            || UpdatesCafe(same, stored[i], before)
            || (stored[i].origin == last.origin && CafeChanges(same, stored[i].columns, last.columns))
    ensures stored[i].origin == last.origin ==> !UpdatesCafe(same, stored[i], before)
  {
    hide CafeChanges;
    var candidates := before + [last];
    assert last in candidates && forall c :: c in candidates <==> c in before || c == last;
    forall c | c in before
      ensures c.origin != last.origin
    {
      var k :| 0 <= k < |before| && before[k] == c;
      assert candidates[k] == c && candidates[|before|] == last;
    }
  }

  lemma OneMoreCandidate(same: SameValue, stored: seq<Cafe>, before: seq<Candidate>, last: Candidate)
    requires UniqueOrigins(stored) && UniqueCandidates(before + [last])
    ensures var found, updated := FindCafe(stored, last.origin), UpdatedCafes(same, stored, before);
            |UpdatedCafes(same, stored, before + [last])| ==
            |updated| + if found.Some? && CafeChanges(same, found.value.columns, last.columns) then 1 else 0
  {
    hide CafeChanges, FindCafe, UpdatesCafe, UniqueCandidates;
    forall i: nat | i < |stored|
      ensures i in UpdatedCafes(same, stored, before + [last]) <==>
              || i in UpdatedCafes(same, stored, before)
              || (stored[i].origin == last.origin && CafeChanges(same, stored[i].columns, last.columns))
      ensures stored[i].origin == last.origin ==> i !in UpdatedCafes(same, stored, before)
    {
      OneMoreChange(same, stored, before, last, i);
    }
    var found := FindCafe(stored, last.origin);
    if found.Some? {
      var i :| 0 <= i < |stored| && stored[i] == found.value;
      assert forall k :: 0 <= k < |stored| && stored[k].origin == last.origin ==> k == i;
      hide UniqueOrigins;
      if CafeChanges(same, found.value.columns, last.columns) {
        assert UpdatedCafes(same, stored, before + [last]) == UpdatedCafes(same, stored, before) + {i};
      } else {
        assert UpdatedCafes(same, stored, before + [last]) == UpdatedCafes(same, stored, before);
      }
    } else {
      assert forall k :: 0 <= k < |stored| ==> stored[k] in stored;
      assert UpdatedCafes(same, stored, before + [last]) == UpdatedCafes(same, stored, before);
    }
  }

  /** The stored links that some reference does not agree with. */
  ghost function UpdatedLinks(stored: seq<Place>, refs: seq<Reference>): set<nat> {
    set j: nat | j < |stored| && UpdatesLink(stored[j], refs)
  }

  ghost predicate UpdatesLink(p: Place, refs: seq<Reference>) {
    exists r :: r in refs && r.key == p.key && !Agrees(p, r)
  }

  lemma {:induction false} UpdatedLinksAreCounted(counts: Report, stored: seq<Place>, refs: seq<Reference>)
    requires UniqueKeys(stored) && ConsistentReferences(refs)
    ensures CountReferences(counts, stored, refs).providerUpdated
         == counts.providerUpdated + |UpdatedLinks(stored, refs)|
  {
    hide FindPlace, Agrees;
    if refs == [] {
      assert UpdatedLinks(stored, refs) == {};
    } else {
      var before, last := refs[..|refs| - 1], refs[|refs| - 1];
      assert refs == before + [last];
      UpdatedLinksAreCounted(counts, stored, before);
      OneMoreReference(stored, before, last);
      assert forall p :: PlaceChanges(p, last) <==> !Agrees(p, last) by { ChangesAreDisagreements(last); }
    }
  }

  lemma ChangesAreDisagreements(r: Reference)
    ensures forall p :: PlaceChanges(p, r) <==> !Agrees(p, r)
  {
  }

  lemma OneMoreUpdate(stored: seq<Place>, before: seq<Reference>, last: Reference, j: nat)
    requires ConsistentReferences(before + [last]) && j < |stored|
    ensures UpdatesLink(stored[j], before + [last]) <==>
            UpdatesLink(stored[j], before) || (stored[j].key == last.key && !Agrees(stored[j], last))
    ensures stored[j].key == last.key ==> !UpdatesLink(stored[j], before)
  {
    hide Agrees;
    var refs := before + [last];
    assert last in refs && forall r :: r in refs <==> r in before || r == last;
    forall r | r in before
      ensures r.key != last.key
    {
      var k :| 0 <= k < |before| && before[k] == r;
      assert refs[k] == r && refs[|before|] == last;
    }
  }

  lemma OneMoreReference(stored: seq<Place>, before: seq<Reference>, last: Reference)
    requires UniqueKeys(stored) && ConsistentReferences(before + [last])
    ensures var found, updated := FindPlace(stored, last.key), UpdatedLinks(stored, before);
            |UpdatedLinks(stored, before + [last])| ==
            |updated| + if found.Some? && !Agrees(found.value, last) then 1 else 0
  {
    hide Agrees, FindPlace, UpdatesLink, ConsistentReferences;
    forall j: nat | j < |stored|
      ensures j in UpdatedLinks(stored, before + [last]) <==>
              j in UpdatedLinks(stored, before) || (stored[j].key == last.key && !Agrees(stored[j], last))
      ensures stored[j].key == last.key ==> j !in UpdatedLinks(stored, before)
    {
      OneMoreUpdate(stored, before, last, j);
    }
    var found := FindPlace(stored, last.key);
    if found.Some? {
      var j :| 0 <= j < |stored| && stored[j] == found.value;
      assert forall k :: 0 <= k < |stored| && stored[k].key == last.key ==> k == j;
      assert UpdatedLinks(stored, before + [last]) ==
             UpdatedLinks(stored, before) + if Agrees(stored[j], last) then {} else {j};
    } else {
      assert forall k :: 0 <= k < |stored| ==> stored[k] in stored;
      assert UpdatedLinks(stored, before + [last]) == UpdatedLinks(stored, before);
    }
  }

  /** The values of a link that a reference sets. */
  function ShownValues(p: Place): (string, bool, string, Option<real>) {
    (p.detailUrl, p.active, p.matchMethod, p.matchDistanceM)
  }

  predicate Named(catalog: Catalog, p: Place) {
    exists r :: r in AllReferences(catalog) && r.key == p.key
  }

  /**
   The report counts exactly the stored cafes that end with other columns, the named links that end with other
   values, and the links that end inactive.
   */
  lemma ReportCountsChangedRows(same: SameValue, db: Db, catalog: Catalog, now: int)
    requires Reflexive(same) && UniqueOrigins(db.cafes) && UniqueKeys(db.places)
    requires UniqueCandidates(catalog.newCafeCandidates) && ConsistentReferences(AllReferences(catalog))
    ensures var report, after := ReportOf(same, db, catalog), Seeded(same, db, catalog, now);
            && report.cafeUpdated == |set i: nat | i < |db.cafes| && after.cafes[i] != db.cafes[i]|
            && report.providerUpdated
               == |set j: nat | j < |db.places| && Named(catalog, db.places[j])
                                && ShownValues(after.places[j]) != ShownValues(db.places[j])|
            && report.providerDeactivated
               == |set j: nat | j < |db.places| && db.places[j].active && !after.places[j].active|
  {
    hide Reflexive, UniqueOrigins, UniqueKeys, UniqueCandidates, ConsistentReferences, AllReferences, Seeded;
    hide CountCafes, CountReferences, CountRetired, UpdatesCafe, UpdatesLink, Named, Retires;
    var report, after, refs := ReportOf(same, db, catalog), Seeded(same, db, catalog, now), AllReferences(catalog);
    var counts := CountCafes(same, db.cafes, catalog.newCafeCandidates);
    UpdatedCafesAreCounted(same, db.cafes, catalog.newCafeCandidates);
    CandidateCounts(same, db.cafes, catalog.newCafeCandidates);
    UpdatedLinksAreCounted(counts, db.places, refs);
    ReferenceCounts(counts, db.places, refs);
    RetiredCounts(CountReferences(counts, db.places, refs), db.places, refs);
    RowsOnlyGrow(same, db, catalog, now);
    forall i: nat | i < |db.cafes|
      ensures after.cafes[i] != db.cafes[i] <==> UpdatesCafe(same, db.cafes[i], catalog.newCafeCandidates)
    {
      CafeChangesExactly(same, db, catalog, now, i);
    }
    forall j: nat | j < |db.places|
      ensures Named(catalog, db.places[j]) && ShownValues(after.places[j]) != ShownValues(db.places[j])
              <==> UpdatesLink(db.places[j], refs)
      ensures db.places[j].active && !after.places[j].active <==> Retires(refs, db.places[j])
    {
      LinkChangesExactly(same, db, catalog, now, j);
    }
    assert UpdatedCafes(same, db.cafes, catalog.newCafeCandidates)
        == set i: nat | i < |db.cafes| && after.cafes[i] != db.cafes[i];
    assert UpdatedLinks(db.places, refs)
        == set j: nat | j < |db.places| && Named(catalog, db.places[j])
                        && ShownValues(after.places[j]) != ShownValues(db.places[j]);
    assert Retired(db.places, refs) == set j: nat | j < |db.places| && db.places[j].active && !after.places[j].active;
  }

  lemma RowsOnlyGrow(same: SameValue, db: Db, catalog: Catalog, now: int)
    ensures var after := Seeded(same, db, catalog, now);
            |after.cafes| >= |db.cafes| && |after.places| >= |db.places|
  {
    hide NewCafes, NewPlaces, CafesAfter, PlacesAfter, AllReferences;
  }

  lemma CafeChangesExactly(same: SameValue, db: Db, catalog: Catalog, now: int, i: nat)
    requires Reflexive(same) && UniqueCandidates(catalog.newCafeCandidates) && i < |db.cafes|
    ensures i < |Seeded(same, db, catalog, now).cafes|
    ensures Seeded(same, db, catalog, now).cafes[i] != db.cafes[i]
            <==> UpdatesCafe(same, db.cafes[i], catalog.newCafeCandidates)
  {
    hide NewCafes, NewPlaces, PlacesAfter, AllReferences, FindCandidate, UniqueCandidates, Written, CafeChanges;
    var cafe, found := db.cafes[i], FindCandidate(catalog.newCafeCandidates, db.cafes[i].origin);
    if found.Some? {
      WrittenChanges(same, cafe.columns, found.value.columns);
      forall c | c in catalog.newCafeCandidates && c.origin == cafe.origin
        ensures c == found.value
      {
        FindCandidateIsUnique(catalog.newCafeCandidates, c);
      }
    }
  }

  lemma WrittenChanges(same: SameValue, stored: Columns, incoming: Columns)
    requires Reflexive(same)
    ensures Written(same, stored, incoming) != stored <==> CafeChanges(same, stored, incoming)
  {
    var written := Written(same, stored, incoming);
    if column :| column in incoming && Changes(same, stored, incoming, column) {
      assert column in written && written[column] == incoming[column];
    } else {
      assert written == stored;
    }
  }

  lemma LinkChangesExactly(same: SameValue, db: Db, catalog: Catalog, now: int, j: nat)
    requires ConsistentReferences(AllReferences(catalog)) && j < |db.places|
    ensures j < |Seeded(same, db, catalog, now).places|
    ensures var refs, p, q := AllReferences(catalog), db.places[j], Seeded(same, db, catalog, now).places[j];
            && (Named(catalog, p) && ShownValues(q) != ShownValues(p) <==> UpdatesLink(p, refs))
            && (p.active && !q.active <==> Retires(refs, p))
  {
    hide NewCafes, NewPlaces, CafesAfter, AllReferences, FindReference, ConsistentReferences;
    var refs, p := AllReferences(catalog), db.places[j];
    var found := FindReference(refs, p.key);
    if found.Some? {
      forall r | r in refs && r.key == p.key
        ensures r == found.value
      {
        FindReferenceIsUnique(refs, r);
      }
    }
  }

  // ---------------------------------------------------------------------------------------
  // What is refused
  // ---------------------------------------------------------------------------------------

  /** The row with this id and origin is still there. */
  ghost predicate HasCafe(cafes: seq<Cafe>, id: nat, origin: Origin) {
    exists c :: c in cafes && c.id == id && c.origin == origin
  }

  ghost predicate HasLink(places: seq<Place>, key: PlaceKey, cafeId: nat) {
    exists p :: p in places && p.key == key && p.cafeId == cafeId
  }

  ghost predicate HasReference(db: Db, r: Reference) {
    exists c :: c in db.cafes && c.origin == r.origin && HasLink(db.places, r.key, c.id)
  }

  /**
   Tables that carry out a catalogue: they keep every constraint, every stored cafe and every stored link where it
   is, they add cafes of candidates only, and they attach every reference to the cafe of its origin.
   */
  ghost predicate CarriesOut(db: Db, catalog: Catalog, after: Db) {
    && ConstraintsHold(after) && UniqueCafeIds(after.cafes)
    && (forall s :: s in db.cafes ==> HasCafe(after.cafes, s.id, s.origin))
    && (forall c :: c in after.cafes ==>
                      HasCafe(db.cafes, c.id, c.origin)
                      || exists k :: k in catalog.newCafeCandidates && k.origin == c.origin)
    && (forall p :: p in db.places ==> HasLink(after.places, p.key, p.cafeId))
    && forall r :: r in AllReferences(catalog) ==> HasReference(after, r)
  }

  lemma CafeOfIdAndOrigin(cafes: seq<Cafe>, c: Cafe, d: Cafe)
    requires UniqueCafeIds(cafes) && UniqueOrigins(cafes) && c in cafes && d in cafes
    ensures c.id == d.id <==> c.origin == d.origin
  {
    var i :| 0 <= i < |cafes| && cafes[i] == c;
    var j :| 0 <= j < |cafes| && cafes[j] == d;
  }

  lemma SameLink(places: seq<Place>, p: Place, q: Place)
    requires UniqueKeys(places) && UniqueCafeProviders(places) && p in places && q in places
    ensures p.key == q.key || (p.cafeId == q.cafeId && p.key.provider == q.key.provider) ==> p == q
  {
    var i :| 0 <= i < |places| && places[i] == p;
    var j :| 0 <= j < |places| && places[j] == q;
  }

  lemma CarriedReferenceFits(db: Db, catalog: Catalog, after: Db, r: Reference)
    requires KeyedDb(db) && CarriesOut(db, catalog, after) && r in AllReferences(catalog)
    ensures ReferenceFits(db, catalog.newCafeCandidates, r)
  {
    hide AllReferences, UniqueKeys, UniqueCafeProviders, UniqueOrigins, UniqueCafeIds, UniquePlaceIds;
    hide FindCafe, FindPlace, FindCafeById, FindCafeProvider, FindCandidate;
    var c :| c in after.cafes && c.origin == r.origin && HasLink(after.places, r.key, c.id);
    var q :| q in after.places && q.key == r.key && q.cafeId == c.id;
    var target, owner := FindCafe(db.cafes, r.origin), FindPlace(db.places, r.key);
    if target.Some? {
      var kept :| kept in after.cafes && kept.id == target.value.id && kept.origin == r.origin;
      CafeOfIdAndOrigin(after.cafes, kept, c);
      var current := FindCafeProvider(db.places, target.value.id, r.key.provider);
      if current.Some? {
        var link :| link in after.places && link.key == current.value.key && link.cafeId == target.value.id;
        SameLink(after.places, link, q);
      }
    }
    if owner.Some? {
      var link :| link in after.places && link.key == r.key && link.cafeId == owner.value.cafeId;
      SameLink(after.places, link, q);
      var i :| 0 <= i < |db.places| && db.places[i] == owner.value;
      var cafe := FindCafeById(db.cafes, owner.value.cafeId).value;
      var kept :| kept in after.cafes && kept.id == cafe.id && kept.origin == cafe.origin;
      CafeOfIdAndOrigin(after.cafes, kept, c);
    }
  }

  lemma SeededCarriesOut(same: SameValue, db: Db, catalog: Catalog, now: int)
    requires KeyedDb(db) && Valid(db, catalog)
    ensures CarriesOut(db, catalog, Seeded(same, db, catalog, now))
  {
    hide AllReferences, UniqueKeys, UniqueCafeProviders, UniqueOrigins, UniqueCafeIds, UniquePlaceIds, Seeded;
    hide ConsistentReferences, ReferenceFits, UniqueCandidates, FindCafe, FindPlace, FindCafeById, Valid, KeyedDb;
    var after := Seeded(same, db, catalog, now);
    SeedKeepsConstraints(same, db, catalog, now);
    StillKeyed(after);
    NewCafesAreCandidates(same, db, catalog, now);
    forall i | 0 <= i < |db.cafes|
      ensures HasCafe(after.cafes, db.cafes[i].id, db.cafes[i].origin)
      ensures after.cafes[i].id == db.cafes[i].id && after.cafes[i].origin == db.cafes[i].origin
    {
      StoredCafeKept(same, db, catalog, now, i);
      assert after.cafes[i] in after.cafes;
    }
    forall c | c in after.cafes
      ensures HasCafe(db.cafes, c.id, c.origin) || exists k :: k in catalog.newCafeCandidates && k.origin == c.origin
    {
      var j :| 0 <= j < |after.cafes| && after.cafes[j] == c;
      if j < |db.cafes| { assert db.cafes[j] in db.cafes; }
    }
    forall p | p in db.places
      ensures HasLink(after.places, p.key, p.cafeId)
    {
      StoredLinkKept(same, db, catalog, now, p);
    }
    forall r | r in AllReferences(catalog)
      ensures HasReference(after, r)
    {
      EveryReferenceEndsAttached(same, db, catalog, now, r);
      AttachedIsThere(after, r, now);
    }
  }

  lemma StillKeyed(db: Db)
    requires KeyedDb(db)
    ensures UniqueCafeIds(db.cafes)
  {
  }

  lemma StoredCafeKept(same: SameValue, db: Db, catalog: Catalog, now: int, i: nat)
    requires i < |db.cafes|
    ensures var after := Seeded(same, db, catalog, now);
            && i < |after.cafes| && after.cafes[i].id == db.cafes[i].id && after.cafes[i].origin == db.cafes[i].origin
  {
    hide NewCafes, NewPlaces, PlacesAfter, AllReferences, CafeAfter;
    CafeAfterKeepsIdentity(same, catalog.newCafeCandidates, db.cafes[i]);
  }

  lemma StoredLinkKept(same: SameValue, db: Db, catalog: Catalog, now: int, p: Place)
    requires p in db.places
    ensures HasLink(Seeded(same, db, catalog, now).places, p.key, p.cafeId)
  {
    hide NewCafes, NewPlaces, CafesAfter, AllReferences, PlaceAfter;
    var j :| 0 <= j < |db.places| && db.places[j] == p;
    PlaceAfterKeepsIdentity(AllReferences(catalog), now, p);
    var after := Seeded(same, db, catalog, now);
    assert after.places[j] in after.places;
  }

  lemma AttachedIsThere(db: Db, r: Reference, now: int)
    requires Attached(db, r, now)
    ensures HasReference(db, r)
  {
    hide FindPlace, FindCafeById;
  }

  /** A catalogue that is consistent in itself is refused exactly when no tables could carry it out. */
  lemma RefusedExactlyWhenImpossible(same: SameValue, db: Db, catalog: Catalog, now: int)
    requires KeyedDb(db) && ConstraintsHold(db)
    requires UniqueCandidates(catalog.newCafeCandidates) && ConsistentReferences(AllReferences(catalog))
    ensures Valid(db, catalog) <==> exists after :: CarriesOut(db, catalog, after)
  {
    hide KeyedDb, ConstraintsHold, UniqueCandidates, ConsistentReferences, CarriesOut, ReferenceFits, AllReferences;
    if Valid(db, catalog) {
      SeededCarriesOut(same, db, catalog, now);
    }
    if after :| CarriesOut(db, catalog, after) {
      var refs := AllReferences(catalog);
      forall i | 0 <= i < |refs|
        ensures ReferenceFits(db, catalog.newCafeCandidates, refs[i])
      {
        CarriedReferenceFits(db, catalog, after, refs[i]);
      }
    }
  }
}
