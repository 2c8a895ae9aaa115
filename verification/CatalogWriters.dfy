/**
 The three scripts that write cafes and provider links, one after another on the same tables:
 backend/scripts/seed_provider_cafes.py, seed_naver_place_links.py and seed_kakao_catalog_expansion.py.
 */
module CatalogWriters {
  import opened ProviderSeed
  import NaverLinks
  import KakaoExpansion

  /** One applied run; the Naver script reads the cafes in id order. */
  datatype Write =
    | ProviderRun(catalog: Catalog, now: int)
    | NaverRun(view: seq<Cafe>, after: nat, maxCafes: nat, search: NaverLinks.Search, now: int)
    | KakaoRun(plan: KakaoExpansion.Plan, bounds: KakaoExpansion.Bounds, now: int)

  /** The run reads the tables as they are: its cafes are rows, its plan was built from them. */
  ghost predicate ReadsTables(db: Db, write: Write) {
    match write
    case ProviderRun(_, _) => true
    case NaverRun(view, _, _, _, _) =>
      NaverLinks.InIdOrder(view) && forall c :: c in view <==> c in db.cafes
    case KakaoRun(plan, _, _) => KakaoExpansion.PlanFits(db, plan)
  }

  ghost function After(same: SameValue, db: Db, write: Write): Db
    requires ReadsTables(db, write)
  {
    match write
    case ProviderRun(catalog, now) => if Valid(db, catalog) then Seeded(same, db, catalog, now) else db
    case NaverRun(view, after, maxCafes, search, now) =>
      var places := NaverLinks.AfterRun(view, db.places, after, maxCafes, search, db.nextPlaceId, now);
      NaverLinks.AfterRunGrows(view, db.places, after, maxCafes, search, db.nextPlaceId, now);
      if !UniqueKeys(db.places) then db
      else db.(places := places, nextPlaceId := db.nextPlaceId + |places| - |db.places|)
    case KakaoRun(plan, bounds, now) =>
      if KakaoExpansion.Accepts(db, plan, bounds, true) then KakaoExpansion.Expanded(db, plan, bounds, now) else db
  }

  /** Runs that follow one another, each on the tables the one before left. */
  ghost predicate Follow(same: SameValue, db: Db, writes: seq<Write>)
    decreases |writes|
  {
    writes == [] || (ReadsTables(db, writes[0]) && Follow(same, After(same, db, writes[0]), writes[1..]))
  }

  ghost function AfterAll(same: SameValue, db: Db, writes: seq<Write>): Db
    requires Follow(same, db, writes)
    decreases |writes|
  {
    if writes == [] then db else AfterAll(same, After(same, db, writes[0]), writes[1..])
  }

  // ---------------------------------------------------------------------------------------
  // The database constraints
  // ---------------------------------------------------------------------------------------

  lemma NaverRowsAreKeyed(db: Db, view: seq<Cafe>, after: nat, maxCafes: nat, search: NaverLinks.Search, now: int)
    requires KeyedDb(db) && ConstraintsHold(db) && ReadsTables(db, NaverRun(view, after, maxCafes, search, now))
    ensures var places := NaverLinks.AfterRun(view, db.places, after, maxCafes, search, db.nextPlaceId, now);
            && UniqueKeys(places) && UniqueCafeProviders(places) && UniquePlaceIds(places) && |places| >= |db.places|
            && (forall p :: p in db.places ==> p in places)
            && forall i :: 0 <= i < |places| ==>
                             places[i].id < db.nextPlaceId + |places| - |db.places|
                             && FindCafeById(db.cafes, places[i].cafeId).Some?
  {
    hide NaverLinks.Batch, NaverLinks.Discovered, NaverLinks.Accepted, FindCafeById, UniqueKeys,
         UniqueCafeProviders, UniqueOrigins, UniqueCafeIds, NaverLinks.InIdOrder, NaverLinks.MaySearch;
    NaverLinks.AcceptedLinksKeepConstraints(view, db.places, after, maxCafes, search, db.nextPlaceId, now);
    NaverLinks.AcceptedBelong(view, db.places, after, maxCafes, search);
    NaverLinks.BatchMembers(view, db.places, after, maxCafes);
    var batch := NaverLinks.Batch(view, db.places, after, maxCafes);
    var links := NaverLinks.Discovered(search, batch);
    var accepted := NaverLinks.Accepted(links, db.places, |links|);
    var rows := NaverLinks.Rows(accepted, db.nextPlaceId, now);
    forall k | 0 <= k < |rows|
      ensures FindCafeById(db.cafes, rows[k].cafeId).Some?
    {
      assert accepted[k] in accepted;
      var c :| c in batch && c.id == accepted[k].cafeId;
      assert c in view;
    }
  }

  lemma WriteKeepsConstraints(same: SameValue, db: Db, write: Write)
    requires KeyedDb(db) && ConstraintsHold(db) && ReadsTables(db, write)
    ensures KeyedDb(After(same, db, write)) && ConstraintsHold(After(same, db, write))
  {
    hide Seeded, Valid, KakaoExpansion.Expanded, KakaoExpansion.PlanFits, KakaoExpansion.AllOwned, UniqueKeys,
         UniqueOrigins, UniqueCafeProviders, UniquePlaceIds, UniqueCafeIds, FindCafeById, NaverLinks.AfterRun;
    match write
    case ProviderRun(catalog, now) =>
      if Valid(db, catalog) {
        SeedKeepsConstraints(same, db, catalog, now);
      }
    case NaverRun(view, after, maxCafes, search, now) => NaverRowsAreKeyed(db, view, after, maxCafes, search, now);
    case KakaoRun(plan, bounds, now) =>
      if KakaoExpansion.Accepts(db, plan, bounds, true) {
        KakaoExpansion.ExpansionKeepsOwnership(db, plan, bounds, now);
      }
  }

  /** No sequence of runs of the three scripts ever breaks a constraint of the tables. */
  lemma {:induction false} EveryWriterKeepsConstraints(same: SameValue, db: Db, writes: seq<Write>)
    requires KeyedDb(db) && ConstraintsHold(db) && Follow(same, db, writes)
    ensures KeyedDb(AfterAll(same, db, writes)) && ConstraintsHold(AfterAll(same, db, writes))
    decreases |writes|
  {
    hide KeyedDb, ConstraintsHold, After, ReadsTables;
    if writes != [] {
      WriteKeepsConstraints(same, db, writes[0]);
      EveryWriterKeepsConstraints(same, After(same, db, writes[0]), writes[1..]);
    }
  }

  // ---------------------------------------------------------------------------------------
  // Kakao ownership
  // ---------------------------------------------------------------------------------------

  /** The reference leaves the ownership of the cafe that owns its place as it is. */
  predicate LeavesOwnership(r: Reference, c: Cafe) {
    r.key == PlaceKey(KakaoExpansion.KAKAO, c.origin.sourceId) ==>
      r.matchRule == KakaoExpansion.SOURCE_MATCH_METHOD && r.directUrl == KakaoExpansion.PlaceUrl(c.origin.sourceId)
  }

  /**
   A provider catalogue keeps a Kakao-origin cafe the owner of its place exactly when every reference that
   names the place carries the source match rule and the place's own address.
   */
  lemma ProviderRunKeepsOwnerExactly(same: SameValue, db: Db, catalog: Catalog, now: int, i: nat)
    requires KeyedDb(db) && Valid(db, catalog) && i < |db.cafes|
    requires db.cafes[i].origin.provider == KakaoExpansion.KAKAO && KakaoExpansion.KakaoOwned(db.places, db.cafes[i])
    ensures var after := Seeded(same, db, catalog, now);
            KakaoExpansion.KakaoOwned(after.places, after.cafes[i])
            <==> forall r :: r in AllReferences(catalog) ==> LeavesOwnership(r, db.cafes[i])
  {
    hide *;
    var refs, after, c := AllReferences(catalog), Seeded(same, db, catalog, now), db.cafes[i];
    ValidHasParts(db, catalog);
    SeedKeepsConstraints(same, db, catalog, now);
    HoldParts(after);
    CafeRowAfter(same, db, catalog, now, i);
    KakaoExpansion.OwnedByRow(db.places, c);
    KakaoExpansion.OwnedByRow(after.places, after.cafes[i]);
    var p :| p in db.places && KakaoExpansion.OwnsPlace(p, c);
    PlaceRowAfter(same, db, catalog, now, p);
    OwnersKey(p, c);
    OwnerIsRow(after.places, PlaceAfter(refs, now, p), after.cafes[i]);
    WrittenOwnerExactly(refs, now, p, c, after.cafes[i]);
  }

  lemma ValidHasParts(db: Db, catalog: Catalog)
    requires Valid(db, catalog)
    ensures UniqueKeys(db.places) && UniqueCafeProviders(db.places) && ConsistentReferences(AllReferences(catalog))
  {
  }

  lemma HoldParts(db: Db)
    requires ConstraintsHold(db)
    ensures UniqueKeys(db.places) && UniqueCafeProviders(db.places)
  {
  }

  lemma CafeRowAfter(same: SameValue, db: Db, catalog: Catalog, now: int, i: nat)
    requires i < |db.cafes|
    ensures var after := Seeded(same, db, catalog, now);
            |after.cafes| >= |db.cafes| && after.cafes[i].id == db.cafes[i].id
            && after.cafes[i].origin == db.cafes[i].origin
  {
    hide CafeAfter, NewCafes, PlacesAfter, NewPlaces, AllReferences;
    CafeAfterKeepsIdentity(same, catalog.newCafeCandidates, db.cafes[i]);
  }

  lemma PlaceRowAfter(same: SameValue, db: Db, catalog: Catalog, now: int, p: Place)
    requires p in db.places
    ensures var q := PlaceAfter(AllReferences(catalog), now, p);
            q in Seeded(same, db, catalog, now).places && q.key == p.key
  {
    hide CafesAfter, NewCafes, NewPlaces, AllReferences, PlaceAfter;
    var i :| 0 <= i < |db.places| && db.places[i] == p;
    PlaceAfterKeepsIdentity(AllReferences(catalog), now, p);
    assert Seeded(same, db, catalog, now).places[i] == PlaceAfter(AllReferences(catalog), now, p);
  }

  lemma OwnersKey(p: Place, c: Cafe)
    requires KakaoExpansion.OwnsPlace(p, c)
    ensures p.key == PlaceKey(KakaoExpansion.KAKAO, c.origin.sourceId)
  {
  }

  lemma WrittenOwnerExactly(refs: seq<Reference>, now: int, p: Place, c: Cafe, written: Cafe)
    requires ConsistentReferences(refs) && KakaoExpansion.OwnsPlace(p, c) && written.id == c.id
             && written.origin == c.origin
    ensures KakaoExpansion.OwnsPlace(PlaceAfter(refs, now, p), written)
            <==> forall r :: r in refs ==> LeavesOwnership(r, c)
  {
    hide FindReference, ConsistentReferences;
    var found := FindReference(refs, p.key);
    if found.Some? {
      forall r | r in refs && r.key == p.key
        ensures r == found.value
      {
        FindReferenceIsUnique(refs, r);
      }
    }
  }

  /** Only the row with the key of its place can make a cafe its owner. */
  lemma OwnerIsRow(places: seq<Place>, q: Place, c: Cafe)
    requires UniqueKeys(places) && q in places && q.key == PlaceKey(KakaoExpansion.KAKAO, c.origin.sourceId)
    ensures (exists p :: p in places && KakaoExpansion.OwnsPlace(p, c)) <==> KakaoExpansion.OwnsPlace(q, c)
  {
    if p :| p in places && KakaoExpansion.OwnsPlace(p, c) {
      var i :| 0 <= i < |places| && places[i] == p;
      var j :| 0 <= j < |places| && places[j] == q;
    }
  }

  /** What the reader of a provider catalogue guarantees: no cafe of the catalogue has a Kakao origin. */
  predicate OtherOrigins(catalog: Catalog) {
    && (forall r :: r in AllReferences(catalog) ==> r.origin.provider != KakaoExpansion.KAKAO)
    && (forall c :: c in catalog.newCafeCandidates ==> c.origin.provider != KakaoExpansion.KAKAO)
  }

  /** A reference to the place of a Kakao-origin cafe would have that origin. */
  lemma ReferenceSharesOrigin(db: Db, catalog: Catalog, c: Cafe, r: Reference)
    requires KeyedDb(db) && Valid(db, catalog) && c in db.cafes && r in AllReferences(catalog)
    requires KakaoExpansion.KakaoOwned(db.places, c) && r.key == PlaceKey(KakaoExpansion.KAKAO, c.origin.sourceId)
    ensures r.origin == c.origin
  {
    hide AllReferences, FindCafe, FindPlace, FindCafeProvider, FindCafeById, ConsistentReferences, ConstraintsHold;
    var refs := AllReferences(catalog);
    var k :| 0 <= k < |refs| && refs[k] == r;
    assert ReferenceFits(db, catalog.newCafeCandidates, r);
    FindCafeByIdIsUnique(db.cafes, c);
  }

  lemma ProviderRunKeepsOwnership(same: SameValue, db: Db, catalog: Catalog, now: int)
    requires KeyedDb(db) && Valid(db, catalog) && OtherOrigins(catalog) && KakaoExpansion.AllOwned(db)
    ensures KakaoExpansion.AllOwned(Seeded(same, db, catalog, now))
  {
    hide AllReferences, CafesAfter, NewCafes, NewPlaces, PlacesAfter, KeyedDb, Valid, KakaoExpansion.KakaoOwned,
         CafeAfter, MissingCandidates;
    var after := Seeded(same, db, catalog, now);
    MissingCandidatesMembers(db.cafes, catalog.newCafeCandidates);
    var missing := MissingCandidates(db.cafes, catalog.newCafeCandidates);
    forall k | 0 <= k < |missing|
      ensures missing[k].origin.provider != KakaoExpansion.KAKAO
    {
      assert missing[k] in missing;
    }
    forall i | 0 <= i < |after.cafes| && after.cafes[i].origin.provider == KakaoExpansion.KAKAO
      ensures KakaoExpansion.KakaoOwned(after.places, after.cafes[i])
    {
      if i < |db.cafes| {
        var c := db.cafes[i];
        assert c in db.cafes;
        CafeAfterKeepsIdentity(same, catalog.newCafeCandidates, c);
        forall r | r in AllReferences(catalog)
          ensures LeavesOwnership(r, c)
        {
          if r.key == PlaceKey(KakaoExpansion.KAKAO, c.origin.sourceId) {
            ReferenceSharesOrigin(db, catalog, c, r);
          }
        }
        ProviderRunKeepsOwnerExactly(same, db, catalog, now, i);
      }
    }
  }

  lemma MoreRowsKeepOwnership(db: Db, places: seq<Place>)
    requires UniqueKeys(db.places) && UniqueCafeProviders(db.places)
    requires UniqueKeys(places) && UniqueCafeProviders(places)
    requires KakaoExpansion.AllOwned(db) && forall p :: p in db.places ==> p in places
    ensures forall c :: c in db.cafes && c.origin.provider == KakaoExpansion.KAKAO ==>
              KakaoExpansion.KakaoOwned(places, c)
  {
    hide UniqueKeys, UniqueCafeProviders, KakaoExpansion.KakaoOwned;
    forall c | c in db.cafes && c.origin.provider == KakaoExpansion.KAKAO
      ensures KakaoExpansion.KakaoOwned(places, c)
    {
      KakaoExpansion.OwnedByRow(db.places, c);
      KakaoExpansion.OwnedByRow(places, c);
    }
  }

  lemma WriteKeepsOwnership(same: SameValue, db: Db, write: Write)
    requires KeyedDb(db) && ConstraintsHold(db) && ReadsTables(db, write) && KakaoExpansion.AllOwned(db)
    requires write.ProviderRun? ==> OtherOrigins(write.catalog)
    ensures KakaoExpansion.AllOwned(After(same, db, write))
  {
    hide Seeded, Valid, KakaoExpansion.Expanded, KakaoExpansion.PlanFits, KakaoExpansion.KakaoOwned, UniqueKeys,
         UniqueOrigins, UniqueCafeProviders, UniquePlaceIds, UniqueCafeIds, FindCafeById, NaverLinks.AfterRun,
         KeyedDb, OtherOrigins;
    match write
    case ProviderRun(catalog, now) =>
      if Valid(db, catalog) {
        ProviderRunKeepsOwnership(same, db, catalog, now);
      }
    case NaverRun(view, after, maxCafes, search, now) =>
      var places := NaverLinks.AfterRun(view, db.places, after, maxCafes, search, db.nextPlaceId, now);
      NaverRowsAreKeyed(db, view, after, maxCafes, search, now);
      MoreRowsKeepOwnership(db, places);
    case KakaoRun(plan, bounds, now) =>
      if KakaoExpansion.Accepts(db, plan, bounds, true) {
        KakaoExpansion.ExpansionKeepsOwnership(db, plan, bounds, now);
      }
  }

  /**
   Whatever order the three scripts run in, with catalogues of other origins the ownership test of the
   expansion never fails because of an earlier run.
   */
  lemma {:induction false} EveryWriterKeepsOwnership(same: SameValue, db: Db, writes: seq<Write>)
    requires KeyedDb(db) && ConstraintsHold(db) && Follow(same, db, writes) && KakaoExpansion.AllOwned(db)
    requires forall w :: w in writes && w.ProviderRun? ==> OtherOrigins(w.catalog)
    ensures KakaoExpansion.AllOwned(AfterAll(same, db, writes))
    decreases |writes|
  {
    hide KeyedDb, ConstraintsHold, After, ReadsTables, KakaoExpansion.AllOwned, OtherOrigins;
    if writes != [] {
      assert writes[0] in writes;
      WriteKeepsConstraints(same, db, writes[0]);
      WriteKeepsOwnership(same, db, writes[0]);
      assert forall w :: w in writes[1..] ==> w in writes;
      EveryWriterKeepsOwnership(same, After(same, db, writes[0]), writes[1..]);
    }
  }
}
