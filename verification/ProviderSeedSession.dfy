/**
 `seed_provider_cafes` and `stage_provider_seed` as they run: dictionaries over the stored rows, a
 validation pass, and writes to the session that a dry run leaves out. A row object is named by its
 position in the table.
 */
module ProviderSeedSession {
  import opened Outcomes
  import opened ProviderSeed

  // ---------------------------------------------------------------------------------------
  // Dictionaries over rows
  // ---------------------------------------------------------------------------------------

  predicate Distinct<K(==), V>(rows: seq<V>, key: V -> K) {
    forall i, j :: 0 <= i < j < |rows| ==> key(rows[i]) != key(rows[j])
  }

  /** Every key of a row is known and leads to a row with that key. */
  ghost predicate IndexesRows<K(!new), V>(index: map<K, nat>, rows: seq<V>, key: V -> K) {
    && (forall k :: k in index ==> index[k] < |rows| && key(rows[index[k]]) == k)
    && (forall i :: 0 <= i < |rows| ==> key(rows[i]) in index)
  }

  lemma IndexStep<K(!new), V>(index: map<K, nat>, rows: seq<V>, row: V, key: V -> K)
    requires IndexesRows(index, rows, key)
    ensures IndexesRows(index[key(row) := |rows|], rows + [row], key)
    ensures Distinct(rows + [row], key) <==> Distinct(rows, key) && key(row) !in index
  {
    if key(row) in index {
      assert key((rows + [row])[index[key(row)]]) == key((rows + [row])[|rows|]);
    } else if Distinct(rows, key) {
      assert forall i :: 0 <= i < |rows| ==> key(rows[i]) != key(row);
    } else {
      var i, j :| 0 <= i < j < |rows| && key(rows[i]) == key(rows[j]);
      assert key((rows + [row])[i]) == key((rows + [row])[j]);
    }
  }

  /** A dictionary comprehension over the rows, whose size tells whether the keys are distinct. */
  method IndexBy<K(!new, ==), V>(rows: seq<V>, key: V -> K) returns (index: map<K, nat>)
    ensures IndexesRows(index, rows, key)
    ensures |index| == |rows| <==> Distinct(rows, key)
  {
    index := map[];
    for i := 0 to |rows|
      invariant IndexesRows(index, rows[..i], key)
      invariant |index| <= i
      invariant |index| == i <==> Distinct(rows[..i], key)
    {
      assert rows[..i + 1] == rows[..i] + [rows[i]];
      IndexStep(index, rows[..i], rows[i], key);
      index := index[key(rows[i]) := i];
    }
    assert rows[..|rows|] == rows;
  }

  predicate InRange<K, V>(rows: seq<V>, index: map<K, nat>, key: K) {
    key in index ==> index[key] < |rows|
  }

  /** `dictionary.get(key)` */
  function StoredAt<K, V>(rows: seq<V>, index: map<K, nat>, key: K): Option<V>
    requires InRange(rows, index, key)
  {
    if key in index then Some(rows[index[key]]) else None
  }

  function OriginOf(c: Cafe): Origin { c.origin }

  function CafeIdKey(c: Cafe): nat { c.id }

  function KeyOf(p: Place): PlaceKey { p.key }

  function CafeProviderOf(p: Place): (nat, string) { (p.cafeId, p.key.provider) }

  function CandidateOriginOf(c: Candidate): Origin { c.origin }

  lemma OriginIndexFinds(cafes: seq<Cafe>, index: map<Origin, nat>, origin: Origin)
    requires IndexesRows(index, cafes, OriginOf) && UniqueOrigins(cafes)
    ensures InRange(cafes, index, origin) && FindCafe(cafes, origin) == StoredAt(cafes, index, origin)
  {
    if origin in index {
      assert OriginOf(cafes[index[origin]]) == origin;
      FindCafeIsUnique(cafes, cafes[index[origin]]);
    } else {
      assert forall i :: 0 <= i < |cafes| ==> OriginOf(cafes[i]) in index;
    }
  }

  lemma IdIndexFinds(cafes: seq<Cafe>, index: map<nat, nat>, id: nat)
    requires IndexesRows(index, cafes, CafeIdKey) && UniqueCafeIds(cafes)
    ensures InRange(cafes, index, id) && FindCafeById(cafes, id) == StoredAt(cafes, index, id)
  {
    if id in index {
      assert CafeIdKey(cafes[index[id]]) == id;
      FindCafeByIdIsUnique(cafes, cafes[index[id]]);
    } else {
      assert forall i :: 0 <= i < |cafes| ==> CafeIdKey(cafes[i]) in index;
    }
  }

  lemma KeyIndexFinds(places: seq<Place>, index: map<PlaceKey, nat>, key: PlaceKey)
    requires IndexesRows(index, places, KeyOf) && UniqueKeys(places)
    ensures InRange(places, index, key) && FindPlace(places, key) == StoredAt(places, index, key)
    ensures key in index ==> places[index[key]].key == key
  {
    if key in index {
      assert KeyOf(places[index[key]]) == key;
      FindPlaceIsUnique(places, places[index[key]]);
    } else {
      assert forall i :: 0 <= i < |places| ==> KeyOf(places[i]) in index;
    }
  }

  lemma CafeProviderIndexFinds(places: seq<Place>, index: map<(nat, string), nat>, cafeId: nat, provider: string)
    requires IndexesRows(index, places, CafeProviderOf) && UniqueCafeProviders(places)
    ensures InRange(places, index, (cafeId, provider))
    ensures FindCafeProvider(places, cafeId, provider) == StoredAt(places, index, (cafeId, provider))
  {
    var found := FindCafeProvider(places, cafeId, provider);
    if (cafeId, provider) in index {
      var i := index[(cafeId, provider)];
      assert CafeProviderOf(places[i]) == (cafeId, provider);
      var j :| 0 <= j < |places| && places[j] == found.value;
    } else {
      assert forall i :: 0 <= i < |places| ==> CafeProviderOf(places[i]) in index;
    }
  }

  lemma CandidateIndexFinds(candidates: seq<Candidate>, index: map<Origin, nat>, origin: Origin)
    requires IndexesRows(index, candidates, CandidateOriginOf)
    ensures FindCandidate(candidates, origin).Some? <==> origin in index
  {
    if origin in index {
      assert CandidateOriginOf(candidates[index[origin]]) == origin;
    } else {
      assert forall i :: 0 <= i < |candidates| ==> CandidateOriginOf(candidates[i]) in index;
    }
  }

  // ---------------------------------------------------------------------------------------
  // Validation
  // ---------------------------------------------------------------------------------------

  ghost predicate OwnersNoted(refs: seq<Reference>, owners: map<PlaceKey, Origin>) {
    && (forall r :: r in refs ==> r.key in owners && owners[r.key] == r.origin)
    && (forall key :: key in owners ==> NamesPlace(refs, key))
  }

  ghost predicate NamesPlace(refs: seq<Reference>, key: PlaceKey) {
    exists r :: r in refs && r.key == key
  }

  ghost predicate ProvidersNoted(refs: seq<Reference>, cafeProviders: map<(Origin, string), string>) {
    && (forall r :: r in refs ==> var cp := (r.origin, r.key.provider);
                                  cp in cafeProviders && cafeProviders[cp] == r.key.placeId)
    && (forall cp :: cp in cafeProviders ==> NamesCafe(refs, cp))
  }

  ghost predicate NamesCafe(refs: seq<Reference>, cp: (Origin, string)) {
    exists r :: r in refs && (r.origin, r.key.provider) == cp
  }

  function Pairing(r: Reference): (Origin, PlaceKey) { (r.origin, r.key) }

  ghost predicate PairsSeen(refs: seq<Reference>, seen: set<(Origin, PlaceKey)>) {
    && (forall r :: r in refs ==> Pairing(r) in seen)
    && (forall s :: s in seen ==> exists r :: r in refs && Pairing(r) == s)
  }

  /** A reference that agrees with the three dictionaries clashes with no earlier one. */
  lemma NextIsConsistent(refs: seq<Reference>, r: Reference, owners: map<PlaceKey, Origin>,
                         cafeProviders: map<(Origin, string), string>, seen: set<(Origin, PlaceKey)>)
    requires ConsistentReferences(refs)
    requires OwnersNoted(refs + [r], owners) && ProvidersNoted(refs + [r], cafeProviders) && PairsSeen(refs, seen)
    requires Pairing(r) !in seen
    ensures ConsistentReferences(refs + [r])
  {
    assert r in refs + [r];
    forall j | 0 <= j < |refs|
      ensures refs[j].key != r.key && !(refs[j].origin == r.origin && refs[j].key.provider == r.key.provider)
    {
      assert refs[j] in refs && refs[j] in refs + [r];
      assert Pairing(refs[j]) in seen;
    }
  }

  lemma ClashIsInconsistent(refs: seq<Reference>, j: nat, k: nat)
    requires j < k < |refs|
    requires refs[j].key == refs[k].key
             || (refs[j].origin == refs[k].origin && refs[j].key.provider == refs[k].key.provider)
    ensures !ConsistentReferences(refs)
  {
  }

  lemma EarlierReference(refs: seq<Reference>, k: nat, r: Reference)
    requires k < |refs| && r in refs[..k]
    requires r.key == refs[k].key || (r.origin == refs[k].origin && r.key.provider == refs[k].key.provider)
    ensures !ConsistentReferences(refs)
  {
    var j :| 0 <= j < k && refs[..k][j] == r;
    ClashIsInconsistent(refs, j, k);
  }

  lemma NothingNoted()
    ensures ConsistentReferences([]) && OwnersNoted([], map[]) && ProvidersNoted([], map[]) && PairsSeen([], {})
  {
  }

  lemma NextIsSeen(refs: seq<Reference>, r: Reference, seen: set<(Origin, PlaceKey)>)
    requires PairsSeen(refs, seen)
    ensures PairsSeen(refs + [r], seen + {Pairing(r)})
  {
    assert r in refs + [r];
    forall s | s in seen
      ensures exists q :: q in refs + [r] && Pairing(q) == s
    {
      var q :| q in refs && Pairing(q) == s;
      assert q in refs + [r];
    }
  }

  /** The three dictionary checks over the incoming references. */
  method CheckIncoming(refs: seq<Reference>) returns (error: Option<string>)
    ensures error.None? <==> ConsistentReferences(refs)
  {
    hide ConsistentReferences, OwnersNoted, ProvidersNoted, PairsSeen;
    var owners: map<PlaceKey, Origin> := map[];
    var cafeProviders: map<(Origin, string), string> := map[];
    var seen: set<(Origin, PlaceKey)> := {};
    assert refs[..0] == [];
    NothingNoted();
    for k := 0 to |refs|
      invariant ConsistentReferences(refs[..k])
      invariant OwnersNoted(refs[..k], owners)
      invariant ProvidersNoted(refs[..k], cafeProviders)
      invariant PairsSeen(refs[..k], seen)
    {
      var r := refs[k];
      ghost var before := refs[..k];
      var clash, nextOwners, nextProviders := Note(before, r, owners, cafeProviders, seen);
      if clash.Some? {
        ghost var earlier :| earlier in before && Clashes(earlier, r);
        EarlierReference(refs, k, earlier);
        return clash;
      }
      NextIsConsistent(before, r, nextOwners, nextProviders, seen);
      NextIsSeen(before, r, seen);
      seen := seen + {Pairing(r)};
      owners, cafeProviders := nextOwners, nextProviders;
      assert refs[..k + 1] == before + [r];
    }
    assert refs[..|refs|] == refs;
    error := None;
  }

  predicate Clashes(a: Reference, b: Reference) {
    a.key == b.key || (a.origin == b.origin && a.key.provider == b.key.provider)
  }

  /** One reference against the dictionaries, which it enters with `setdefault`. */
  method Note(ghost refs: seq<Reference>, r: Reference, owners: map<PlaceKey, Origin>,
              cafeProviders: map<(Origin, string), string>, seen: set<(Origin, PlaceKey)>)
    returns (error: Option<string>, nextOwners: map<PlaceKey, Origin>, nextProviders: map<(Origin, string), string>)
    requires OwnersNoted(refs, owners) && ProvidersNoted(refs, cafeProviders) && PairsSeen(refs, seen)
    ensures error.Some? ==> exists earlier :: earlier in refs && Clashes(earlier, r)
    ensures error.None? ==> OwnersNoted(refs + [r], nextOwners) && ProvidersNoted(refs + [r], nextProviders)
    ensures error.None? ==> Pairing(r) !in seen
  {
    hide OwnersNoted, ProvidersNoted;
    nextOwners, nextProviders := owners, cafeProviders;
    if Pairing(r) in seen {
      ghost var earlier :| earlier in refs && Pairing(earlier) == Pairing(r);
      assert Clashes(earlier, r);
      return Some("incoming provider reference is duplicated"), nextOwners, nextProviders;
    }
    var wrongOwner;
    wrongOwner, nextOwners := NoteOwner(refs, r, owners);
    if wrongOwner {
      return Some("incoming provider place ID has multiple canonical owners"), nextOwners, nextProviders;
    }
    var wrongPlace;
    wrongPlace, nextProviders := NoteProvider(refs, r, cafeProviders);
    if wrongPlace {
      return Some("incoming canonical cafe has multiple IDs for one provider"), nextOwners, nextProviders;
    }
    error := None;
  }

  method NoteOwner(ghost refs: seq<Reference>, r: Reference, owners: map<PlaceKey, Origin>)
    returns (wrong: bool, next: map<PlaceKey, Origin>)
    requires OwnersNoted(refs, owners)
    ensures wrong ==> exists earlier :: earlier in refs && Clashes(earlier, r)
    ensures !wrong ==> OwnersNoted(refs + [r], next)
  {
    next := if r.key in owners then owners else owners[r.key := r.origin];
    wrong := next[r.key] != r.origin;
    if r.key in owners {
      assert NamesPlace(refs, r.key);
      ghost var earlier :| earlier in refs && earlier.key == r.key;
      assert Clashes(earlier, r);
    }
    if !wrong {
      forall key | key in next
        ensures NamesPlace(refs + [r], key)
      {
        if key == r.key {
          assert r in refs + [r];
        } else {
          assert NamesPlace(refs, key);
          ghost var named :| named in refs && named.key == key;
          assert named in refs + [r];
        }
      }
    }
  }

  method NoteProvider(ghost refs: seq<Reference>, r: Reference, cafeProviders: map<(Origin, string), string>)
    returns (wrong: bool, next: map<(Origin, string), string>)
    requires ProvidersNoted(refs, cafeProviders)
    ensures wrong ==> exists earlier :: earlier in refs && Clashes(earlier, r)
    ensures !wrong ==> ProvidersNoted(refs + [r], next)
  {
    var cp := (r.origin, r.key.provider);
    next := if cp in cafeProviders then cafeProviders else cafeProviders[cp := r.key.placeId];
    wrong := next[cp] != r.key.placeId;
    if cp in cafeProviders {
      assert NamesCafe(refs, cp);
      ghost var earlier :| earlier in refs && (earlier.origin, earlier.key.provider) == cp;
      assert Clashes(earlier, r);
    }
    if !wrong {
      forall other | other in next
        ensures NamesCafe(refs + [r], other)
      {
        if other == cp {
          assert r in refs + [r];
        } else {
          assert NamesCafe(refs, other);
          ghost var named :| named in refs && (named.origin, named.key.provider) == other;
          assert named in refs + [r];
        }
      }
    }
  }

  /** The dictionaries of a run over its stored rows and its candidates. */
  datatype Lookups = Lookups(
    cafesByOrigin: map<Origin, nat>, cafesById: map<nat, nat>, placesByKey: map<PlaceKey, nat>,
    placesByCafeProvider: map<(nat, string), nat>, candidatesByOrigin: map<Origin, nat>)

  ghost predicate LooksUp(lookups: Lookups, db: Db, candidates: seq<Candidate>) {
    && IndexesRows(lookups.cafesByOrigin, db.cafes, OriginOf)
    && IndexesRows(lookups.cafesById, db.cafes, CafeIdKey)
    && IndexesRows(lookups.placesByKey, db.places, KeyOf)
    && IndexesRows(lookups.placesByCafeProvider, db.places, CafeProviderOf)
    && IndexesRows(lookups.candidatesByOrigin, candidates, CandidateOriginOf)
  }

  /** The checks of one reference against the stored rows. */
  method CheckTarget(db: Db, candidates: seq<Candidate>, lookups: Lookups, r: Reference) returns (error: Option<string>)
    requires UniqueCafeIds(db.cafes) && ConstraintsHold(db) && LooksUp(lookups, db, candidates)
    ensures error.None? <==> ReferenceFits(db, candidates, r)
  {
    hide FindCafe, FindCafeById, FindPlace, FindCafeProvider, FindCandidate, UniqueOrigins, UniqueKeys,
         UniqueCafeProviders, UniqueCafeIds, IndexesRows;
    OriginIndexFinds(db.cafes, lookups.cafesByOrigin, r.origin);
    CandidateIndexFinds(candidates, lookups.candidatesByOrigin, r.origin);
    KeyIndexFinds(db.places, lookups.placesByKey, r.key);
    var target := StoredAt(db.cafes, lookups.cafesByOrigin, r.origin);
    var owner := StoredAt(db.places, lookups.placesByKey, r.key);
    if target.None? && r.origin !in lookups.candidatesByOrigin {
      return Some("provider reference targets a missing canonical cafe");
    }
    if owner.Some? {
      IdIndexFinds(db.cafes, lookups.cafesById, owner.value.cafeId);
      var cafe := StoredAt(db.cafes, lookups.cafesById, owner.value.cafeId);
      if cafe.None? || cafe.value.origin != r.origin {
        return Some("provider place ID belongs to another canonical cafe");
      }
    }
    if target.Some? {
      CafeProviderIndexFinds(db.places, lookups.placesByCafeProvider, target.value.id, r.key.provider);
      var current := StoredAt(db.places, lookups.placesByCafeProvider, (target.value.id, r.key.provider));
      if current.Some? && current.value.key.placeId != r.key.placeId {
        return Some("canonical cafe already has another provider place ID");
      }
    }
    error := None;
  }

  /** The checks of every reference against the stored rows, before anything is written. */
  method CheckTargets(
      db: Db, candidates: seq<Candidate>, lookups: Lookups, refs: seq<Reference>) returns (error: Option<string>)
    requires UniqueCafeIds(db.cafes) && ConstraintsHold(db) && LooksUp(lookups, db, candidates)
    ensures error.None? <==> forall i :: 0 <= i < |refs| ==> ReferenceFits(db, candidates, refs[i])
  {
    hide ReferenceFits, LooksUp, ConstraintsHold, UniqueCafeIds;
    for k := 0 to |refs|
      invariant forall i :: 0 <= i < k ==> ReferenceFits(db, candidates, refs[i])
    {
      error := CheckTarget(db, candidates, lookups, refs[k]);
      if error.Some? {
        return;
      }
    }
    error := None;
  }

  // ---------------------------------------------------------------------------------------
  // Prefixes of the input
  // ---------------------------------------------------------------------------------------

  lemma {:induction false} FindCandidateExtends(candidates: seq<Candidate>, c: Candidate, origin: Origin)
    ensures FindCandidate(candidates + [c], origin)
         == if FindCandidate(candidates, origin).Some? then FindCandidate(candidates, origin)
            else if c.origin == origin then Some(c) else None
  {
    if candidates == [] {
      assert candidates + [c] == [c];
    } else {
      assert (candidates + [c])[1..] == candidates[1..] + [c];
      FindCandidateExtends(candidates[1..], c, origin);
    }
  }

  lemma {:induction false} FindReferenceExtends(refs: seq<Reference>, r: Reference, key: PlaceKey)
    ensures FindReference(refs + [r], key)
         == if FindReference(refs, key).Some? then FindReference(refs, key)
            else if r.key == key then Some(r) else None
  {
    if refs == [] {
      assert refs + [r] == [r];
    } else {
      assert (refs + [r])[1..] == refs[1..] + [r];
      FindReferenceExtends(refs[1..], r, key);
    }
  }

  lemma NewCandidateUnknown(candidates: seq<Candidate>, c: Candidate)
    requires UniqueCandidates(candidates + [c])
    ensures FindCandidate(candidates, c.origin).None?
  {
    forall i | 0 <= i < |candidates|
      ensures candidates[i].origin != c.origin
    {
      assert (candidates + [c])[i] == candidates[i] && (candidates + [c])[|candidates|] == c;
    }
  }

  /** One more candidate writes at most the row with its origin, which no earlier one has written. */
  lemma NextCandidateWrites(
      same: SameValue, candidates: seq<Candidate>, c: Candidate, stored: seq<Cafe>, index: map<Origin, nat>)
    requires UniqueCandidates(candidates + [c]) && UniqueOrigins(stored) && IndexesRows(index, stored, OriginOf)
    ensures var before, after := CafesAfter(same, candidates, stored), CafesAfter(same, candidates + [c], stored);
            if c.origin in index then
              && before[index[c.origin]] == stored[index[c.origin]]
              && var row := stored[index[c.origin]];
                 after == before[index[c.origin] := row.(columns := Written(same, row.columns, c.columns))]
            else after == before
  {
    hide Written, FindCandidate;
    var before, after := CafesAfter(same, candidates, stored), CafesAfter(same, candidates + [c], stored);
    forall i | 0 <= i < |stored|
      ensures stored[i].origin != c.origin ==> after[i] == before[i]
    {
      FindCandidateExtends(candidates, c, stored[i].origin);
    }
    if c.origin in index {
      var i := index[c.origin];
      assert OriginOf(stored[i]) == c.origin;
      NewCandidateUnknown(candidates, c);
      FindCandidateExtends(candidates, c, c.origin);
    } else {
      forall i | 0 <= i < |stored|
        ensures stored[i].origin != c.origin
      {
        assert OriginOf(stored[i]) in index;
      }
    }
  }

  lemma UnchangedIsNotWritten(same: SameValue, stored: Columns, incoming: Columns)
    requires !CafeChanges(same, stored, incoming)
    ensures Written(same, stored, incoming) == stored
  {
    assert forall column :: column in incoming ==> !Changes(same, stored, incoming, column);
  }

  // ---------------------------------------------------------------------------------------
  // The rows between the passes
  // ---------------------------------------------------------------------------------------

  /** A stored row after the reference pass: an unchanged one waits for the batched update. */
  function PlaceUpserted(refs: seq<Reference>, now: int, p: Place): Place {
    match FindReference(refs, p.key)
    case Some(r) =>
      if PlaceChanges(p, r) then Rewritten(p, r, now) else p
    case None => p
  }

  function PlacesUpserted(refs: seq<Reference>, now: int, places: seq<Place>): (r: seq<Place>)
    ensures |r| == |places|
    ensures forall i :: 0 <= i < |places| ==> r[i] == PlaceUpserted(refs, now, places[i])
  {
    seq(|places|, i requires 0 <= i < |places| => PlaceUpserted(refs, now, places[i]))
  }

  /** The ids collected for the batched update. */
  function UnchangedIds(stored: seq<Place>, refs: seq<Reference>): seq<nat> {
    if refs == [] then []
    else
      var last := refs[|refs| - 1];
      UnchangedIds(stored, refs[..|refs| - 1])
      + (match FindPlace(stored, last.key)
         case None => []
         case Some(p) => if PlaceChanges(p, last) then [] else [p.id])
  }

  lemma {:induction false} UnchangedIdsMembers(stored: seq<Place>, refs: seq<Reference>)
    ensures forall id :: id in UnchangedIds(stored, refs) <==> Unchanged(stored, refs, id)
  {
    hide FindPlace, PlaceChanges;
    if refs != [] {
      var before, last := refs[..|refs| - 1], refs[|refs| - 1];
      assert refs == before + [last];
      UnchangedIdsMembers(stored, before);
      forall id
        ensures id in UnchangedIds(stored, refs) <==> Unchanged(stored, refs, id)
      {
        assert id in UnchangedIds(stored, refs)
               <==> id in UnchangedIds(stored, before) || UnchangedBy(stored, last, id);
        if Unchanged(stored, refs, id) {
          var r :| r in refs && UnchangedBy(stored, r, id);
          assert r in before || r == last;
        }
        if Unchanged(stored, before, id) {
          var r :| r in before && UnchangedBy(stored, r, id);
          assert r in refs;
        }
        assert last in refs;
      }
    }
  }

  predicate UnchangedBy(stored: seq<Place>, r: Reference, id: nat) {
    var p := FindPlace(stored, r.key); p.Some? && p.value.id == id && !PlaceChanges(p.value, r)
  }

  ghost predicate Unchanged(stored: seq<Place>, refs: seq<Reference>, id: nat) {
    exists r :: r in refs && UnchangedBy(stored, r, id)
  }

  function Touch(ids: seq<nat>, now: int, p: Place): Place {
    if p.id in ids then p.(lastSeenAt := now) else p
  }

  function TouchAll(ids: seq<nat>, now: int, places: seq<Place>): (r: seq<Place>)
    ensures |r| == |places|
    ensures forall i :: 0 <= i < |places| ==> r[i] == Touch(ids, now, places[i])
  {
    seq(|places|, i requires 0 <= i < |places| => Touch(ids, now, places[i]))
  }

  lemma NewReferenceUnknown(refs: seq<Reference>, r: Reference)
    requires ConsistentReferences(refs + [r])
    ensures FindReference(refs, r.key).None?
  {
    forall i | 0 <= i < |refs|
      ensures refs[i].key != r.key
    {
      assert (refs + [r])[i] == refs[i] && (refs + [r])[|refs|] == r;
    }
  }

  /** One more reference writes at most the row with its key, which no earlier one has written. */
  lemma NextReferenceWrites(refs: seq<Reference>, r: Reference, now: int, stored: seq<Place>, index: map<PlaceKey, nat>)
    requires ConsistentReferences(refs + [r]) && UniqueKeys(stored) && IndexesRows(index, stored, KeyOf)
    ensures var before, after := PlacesUpserted(refs, now, stored), PlacesUpserted(refs + [r], now, stored);
            if r.key in index then
              && before[index[r.key]] == stored[index[r.key]]
              && FindReference(refs + [r], r.key) == Some(r)
              && after == before[index[r.key] := PlaceUpserted(refs + [r], now, stored[index[r.key]])]
            else after == before
  {
    hide FindReference, PlaceChanges;
    var before, after := PlacesUpserted(refs, now, stored), PlacesUpserted(refs + [r], now, stored);
    forall i | 0 <= i < |stored|
      ensures stored[i].key != r.key ==> after[i] == before[i]
    {
      FindReferenceExtends(refs, r, stored[i].key);
    }
    if r.key in index {
      var i := index[r.key];
      assert KeyOf(stored[i]) == r.key;
      NewReferenceUnknown(refs, r);
      FindReferenceExtends(refs, r, r.key);
    } else {
      forall i | 0 <= i < |stored|
        ensures stored[i].key != r.key
      {
        assert KeyOf(stored[i]) in index;
      }
    }
  }

  /** After the passes and the batched update, a stored row is as the specification says. */
  lemma PassesComposeToPlaceAfter(refs: seq<Reference>, now: int, stored: seq<Place>, i: nat)
    requires i < |stored| && UniqueKeys(stored) && UniquePlaceIds(stored) && ConsistentReferences(refs)
    ensures var p := PlaceUpserted(refs, now, stored[i]);
            Touch(UnchangedIds(stored, refs), now, if Retires(refs, p) then p.(active := false) else p)
            == PlaceAfter(refs, now, stored[i])
    ensures Retires(refs, PlaceUpserted(refs, now, stored[i])) <==> Retires(refs, stored[i])
  {
    hide FindReference, FindPlace, UnchangedIds, PlaceChanges;
    var p := stored[i];
    assert p in stored;
    UnchangedIdsMembers(stored, refs);
    FindPlaceIsUnique(stored, p);
    var found := FindReference(refs, p.key);
    if found.Some? {
      assert UnchangedBy(stored, found.value, p.id) <==> !PlaceChanges(p, found.value);
    }
    if Unchanged(stored, refs, p.id) {
      var r :| r in refs && UnchangedBy(stored, r, p.id);
      var q := FindPlace(stored, r.key).value;
      var j :| 0 <= j < |stored| && stored[j] == q;
      FindReferenceIsUnique(refs, r);
    }
  }

  /** The dictionaries a reference finds its cafe in: the stored rows, then the created ones behind them. */
  datatype Targets = Targets(byOrigin: map<Origin, nat>, stored: nat, createdByOrigin: map<Origin, nat>)

  function TargetOf(targets: Targets, origin: Origin): Option<nat> {
    if origin in targets.byOrigin then Some(targets.byOrigin[origin])
    else if origin in targets.createdByOrigin then Some(targets.stored + targets.createdByOrigin[origin])
    else None
  }

  predicate TargetKnown(cafes: seq<Cafe>, targets: Targets, origin: Origin) {
    var target := TargetOf(targets, origin);
    target.Some? && target.value < |cafes| && cafes[target.value].id == CafeIdOf(cafes, origin)
  }

  function TargetId(cafes: seq<Cafe>, targets: Targets, origin: Origin): (id: nat)
    requires TargetKnown(cafes, targets, origin)
    ensures id == CafeIdOf(cafes, origin)
  {
    cafes[TargetOf(targets, origin).value].id
  }

  lemma TargetHasOrigin(db: Db, stored: seq<Cafe>, created: seq<Cafe>, targets: Targets, origin: Origin)
    requires |stored| == |db.cafes| == targets.stored
    requires forall i :: 0 <= i < |stored| ==> stored[i].origin == db.cafes[i].origin
    requires IndexesRows(targets.byOrigin, db.cafes, OriginOf)
             && IndexesRows(targets.createdByOrigin, created, OriginOf)
    ensures var target := TargetOf(targets, origin);
            target.Some? ==> target.value < |stored + created| && (stored + created)[target.value].origin == origin
    ensures FindCafe(stored + created, origin).Some? ==> TargetOf(targets, origin).Some?
  {
    hide FindCafe;
    var cafes := stored + created;
    if origin in targets.byOrigin {
      assert OriginOf(db.cafes[targets.byOrigin[origin]]) == origin;
    } else if origin in targets.createdByOrigin {
      var i := targets.createdByOrigin[origin];
      assert OriginOf(created[i]) == origin && cafes[|stored| + i] == created[i];
    }
    forall k | 0 <= k < |cafes|
      ensures TargetOf(targets, cafes[k].origin).Some?
    {
      if k < |stored| {
        assert OriginOf(db.cafes[k]) in targets.byOrigin;
      } else {
        assert OriginOf(created[k - |stored|]) in targets.createdByOrigin;
      }
    }
  }

  /** No reference of a valid catalogue loses its cafe between the validation and the insertion. */
  lemma TargetsAreKnown(same: SameValue, db: Db, catalog: Catalog, now: int, targets: Targets, r: Reference)
    requires KeyedDb(db) && Valid(db, catalog) && r in AllReferences(catalog) && targets.stored == |db.cafes|
    requires IndexesRows(targets.byOrigin, db.cafes, OriginOf)
    requires IndexesRows(targets.createdByOrigin, NewCafes(db.cafes, catalog.newCafeCandidates, db.nextCafeId),
                         OriginOf)
    ensures TargetKnown(Seeded(same, db, catalog, now).cafes, targets, r.origin)
  {
    hide FindCafe, CafeAfter, CafesAfter, NewCafes, AllReferences, Valid, KeyedDb, PlacesAfter, NewPlaces, Seeded,
         IndexesRows, TargetOf, UniqueOrigins, UniqueCafeIds, MissingCandidates;
    var stored := CafesAfter(same, catalog.newCafeCandidates, db.cafes);
    var created := NewCafes(db.cafes, catalog.newCafeCandidates, db.nextCafeId);
    var cafes := stored + created;
    SeededParts(same, db, catalog, now);
    SeededCafesKeyed(same, db, catalog, now);
    ReferenceHasCafe(same, db, catalog, now, r);
    forall i | 0 <= i < |stored|
      ensures stored[i].origin == db.cafes[i].origin
    {
      CafeAfterKeepsIdentity(same, catalog.newCafeCandidates, db.cafes[i]);
    }
    TargetHasOrigin(db, stored, created, targets, r.origin);
    var at := TargetOf(targets, r.origin).value;
    assert cafes[at] in cafes;
    FindCafeIsUnique(cafes, cafes[at]);
  }

  // ---------------------------------------------------------------------------------------
  // The session
  // ---------------------------------------------------------------------------------------

  class Session {
    var cafes: seq<Cafe>
    var places: seq<Place>
    var nextCafeId: nat
    var nextPlaceId: nat

    constructor (db: Db)
      ensures State() == db
    {
      cafes, places, nextCafeId, nextPlaceId := db.cafes, db.places, db.nextCafeId, db.nextPlaceId;
    }

    function State(): Db
      reads this
    {
      Db(cafes, places, nextCafeId, nextPlaceId)
    }

    /** The cafe pass; the cafes to create are handed on until the flush. */
    method UpsertCafes(same: SameValue, candidates: seq<Candidate>, byOrigin: map<Origin, nat>, dryRun: bool)
      returns (counts: Report, created: seq<Candidate>)
      requires UniqueOrigins(cafes) && UniqueCandidates(candidates) && IndexesRows(byOrigin, cafes, OriginOf)
      modifies this`cafes
      ensures counts == CountCafes(same, old(cafes), candidates)
      ensures cafes == if dryRun then old(cafes) else CafesAfter(same, candidates, old(cafes))
      ensures created == if dryRun then [] else MissingCandidates(old(cafes), candidates)
    {
      hide *;
      ghost var stored := cafes;
      counts, created := Report(0, 0, 0, 0, 0, 0, 0), [];
      NoCandidates(same, stored);
      assert candidates[..0] == [];
      for k := 0 to |candidates|
        invariant counts == CountCafes(same, stored, candidates[..k])
        invariant cafes == if dryRun then stored else CafesAfter(same, candidates[..k], stored)
        invariant created == if dryRun then [] else MissingCandidates(stored, candidates[..k])
      {
        var c := candidates[k];
        ghost var before := candidates[..k];
        assert candidates[..k + 1] == before + [c];
        UniquePrefix(candidates, k + 1);
        if c.origin !in byOrigin {
          CandidateInserts(same, before, c, stored, byOrigin);
          counts := counts.(cafeInserted := counts.cafeInserted + 1);
          if !dryRun {
            created := created + [c];
          }
        } else {
          CandidateWrites(same, before, c, stored, byOrigin);
          var i := byOrigin[c.origin];
          var existing := cafes[i];
          assert existing == stored[i];
          if !CafeChanges(same, existing.columns, c.columns) {
            counts := counts.(cafeUnchanged := counts.cafeUnchanged + 1);
          } else {
            counts := counts.(cafeUpdated := counts.cafeUpdated + 1);
            if !dryRun {
              cafes := cafes[i := existing.(columns := Written(same, existing.columns, c.columns))];
            }
          }
        }
      }
      assert candidates[..|candidates|] == candidates;
    }

    /** The flush gives the created cafes their ids. */
    method FlushCafes(created: seq<Candidate>) returns (rows: seq<Cafe>)
      modifies this`cafes, this`nextCafeId
      ensures |rows| == |created| && cafes == old(cafes) + rows && nextCafeId == old(nextCafeId) + |created|
      ensures forall k :: 0 <= k < |rows| ==>
                rows[k] == Cafe(old(nextCafeId) + k, created[k].origin, created[k].columns)
    {
      rows := [];
      for k := 0 to |created|
        invariant |rows| == k && nextCafeId == old(nextCafeId) + k && cafes == old(cafes)
        invariant forall j :: 0 <= j < k ==> rows[j] == Cafe(old(nextCafeId) + j, created[j].origin, created[j].columns)
      {
        rows := rows + [Cafe(nextCafeId, created[k].origin, created[k].columns)];
        nextCafeId := nextCafeId + 1;
      }
      cafes := cafes + rows;
    }

    /** The reference pass: inserts, updates, and the ids of the unchanged rows. */
    method UpsertReferences(
        refs: seq<Reference>, now: int, dryRun: bool, byKey: map<PlaceKey, nat>, counts: Report, targets: Targets)
      returns (report: Report, pending: seq<nat>)
      requires ConsistentReferences(refs) && UniqueKeys(places) && IndexesRows(byKey, places, KeyOf)
      requires !dryRun ==> forall r :: r in refs ==> TargetKnown(cafes, targets, r.origin)
      modifies this`places, this`nextPlaceId
      ensures report == CountReferences(counts, old(places), refs)
      ensures dryRun ==> places == old(places) && nextPlaceId == old(nextPlaceId)
      ensures !dryRun ==>
                var inserted := NewPlaces(old(places), cafes, refs, old(nextPlaceId), now);
                && places == PlacesUpserted(refs, now, old(places)) + inserted
                && nextPlaceId == old(nextPlaceId) + |inserted|
                && pending == UnchangedIds(old(places), refs)
    {
      hide *;
      ghost var stored, owners, nextId := places, cafes, nextPlaceId;
      report, pending := counts, [];
      NoReferences(counts, stored, owners, nextId, now);
      assert refs[..0] == [];
      for k := 0 to |refs|
        invariant report == CountReferences(counts, stored, refs[..k])
        invariant dryRun ==> places == stored && nextPlaceId == nextId
        invariant !dryRun ==>
                    places == PlacesUpserted(refs[..k], now, stored) + NewPlaces(stored, owners, refs[..k], nextId, now)
        invariant !dryRun ==> nextPlaceId == nextId + |NewPlaces(stored, owners, refs[..k], nextId, now)|
        invariant !dryRun ==> pending == UnchangedIds(stored, refs[..k])
      {
        var r := refs[k];
        ghost var before := refs[..k];
        assert refs[..k + 1] == before + [r];
        ConsistentPrefix(refs, k + 1);
        if r.key !in byKey {
          ReferenceInserts(counts, before, r, now, stored, owners, nextId, byKey);
          report := report.(providerInserted := report.providerInserted + 1);
          if !dryRun {
            assert r in refs;
            var cafeId := TargetId(cafes, targets, r.origin);
            places := places
            + [Place(nextPlaceId, cafeId, r.key, r.directUrl, true, r.matchRule, r.matchDistanceM, now, now)];
            nextPlaceId := nextPlaceId + 1;
          }
        } else {
          ReferenceWrites(counts, before, r, now, stored, owners, nextId, byKey);
          var i := byKey[r.key];
          var existing := places[i];
          assert existing == stored[i];
          var changed := PlaceChanges(existing, r);
          if changed {
            report := report.(providerUpdated := report.providerUpdated + 1);
          } else {
            report := report.(providerUnchanged := report.providerUnchanged + 1);
          }
          if !dryRun && changed {
            places := places[i := Rewritten(existing, r, now)];
          } else if !dryRun {
            pending := pending + [existing.id];
          }
        }
      }
      assert refs[..|refs|] == refs;
    }

    /** The retirement pass over the rows that were stored when the run began. */
    method RetireManaged(refs: seq<Reference>, incoming: set<PlaceKey>, stored: nat, dryRun: bool, counts: Report)
      returns (report: Report)
      requires stored <= |places| && forall key :: key in incoming <==> FindReference(refs, key).Some?
      modifies this`places
      ensures report == CountRetired(counts, old(places)[..stored], refs)
      ensures dryRun ==> places == old(places)
      ensures !dryRun ==> |places| == |old(places)| && places[stored..] == old(places)[stored..]
      ensures !dryRun ==> forall i :: 0 <= i < stored ==> places[i] == RetiredRow(refs, old(places)[i])
    {
      hide FindReference;
      report := counts;
      for i := 0 to stored
        invariant |places| == |old(places)|
        invariant report == CountRetired(counts, old(places)[..i], refs)
        invariant dryRun ==> places == old(places)
        invariant !dryRun ==> forall j :: 0 <= j < i ==> places[j] == RetiredRow(refs, old(places)[j])
        invariant forall j :: i <= j < |places| ==> places[j] == old(places)[j]
      {
        var existing := places[i];
        assert old(places)[..i + 1][..i] == old(places)[..i];
        if && existing.active && existing.key.provider == "kakao" && existing.matchMethod in MANAGED_KAKAO_MATCH_METHODS
           && existing.key !in incoming {
          report := report.(providerDeactivated := report.providerDeactivated + 1);
          if !dryRun {
            places := places[i := existing.(active := false)];
          }
        }
      }
    }

    /** One `UPDATE ... WHERE id IN (...)` */
    method UpdateLastSeen(ids: seq<nat>, now: int)
      modifies this`places
      ensures places == TouchAll(ids, now, old(places))
    {
      for i := 0 to |places|
        invariant |places| == |old(places)|
        invariant forall j :: 0 <= j < i ==> places[j] == Touch(ids, now, old(places)[j])
        invariant forall j :: i <= j < |places| ==> places[j] == old(places)[j]
      {
        if places[i].id in ids {
          places := places[i := places[i].(lastSeenAt := now)];
        }
      }
    }

    /** The batched update of the unchanged rows touches each of them, whatever the batch size. */
    method TouchUnchanged(pending: seq<nat>, now: int)
      modifies this`places
      ensures places == TouchAll(pending, now, old(places))
    {
      var offset := 0;
      TouchNothing(now, places);
      while offset < |pending|
        invariant 0 <= offset <= |pending|
        invariant places == TouchAll(pending[..offset], now, old(places))
      {
        var end := if offset + PROVIDER_LAST_SEEN_UPDATE_BATCH_SIZE <= |pending|
        then offset + PROVIDER_LAST_SEEN_UPDATE_BATCH_SIZE else |pending|;
        TouchInTwo(pending[..offset], pending[offset..end], now, old(places));
        UpdateLastSeen(pending[offset..end], now);
        assert pending[..offset] + pending[offset..end] == pending[..end];
        offset := end;
      }
      assert pending[..offset] == pending;
    }

    /** The cafe pass, the flush, and where the references will find their cafes. */
    method CafePass(same: SameValue, catalog: Catalog, lookups: Lookups, dryRun: bool, ghost now: int)
      returns (counts: Report, targets: Targets)
      requires KeyedDb(State()) && Valid(State(), catalog) && LooksUp(lookups, State(), catalog.newCafeCandidates)
      modifies this`cafes, this`nextCafeId
      ensures counts == CountCafes(same, old(cafes), catalog.newCafeCandidates)
      ensures dryRun ==> cafes == old(cafes) && nextCafeId == old(nextCafeId)
      ensures !dryRun ==> cafes == Seeded(same, old(State()), catalog, now).cafes
      ensures !dryRun ==> nextCafeId == Seeded(same, old(State()), catalog, now).nextCafeId
      ensures !dryRun ==> forall r :: r in AllReferences(catalog) ==> TargetKnown(cafes, targets, r.origin)
    {
      hide *;
      ghost var db := State();
      var candidates := catalog.newCafeCandidates;
      StateParts();
      ValidParts(db, catalog, lookups);
      var created;
      counts, created := UpsertCafes(same, candidates, lookups.cafesByOrigin, dryRun);
      var stored, rows := |cafes|, [];
      if created != [] {
        rows := FlushCafes(created);
      }
      var createdByOrigin := IndexBy(rows, OriginOf);
      targets := Targets(lookups.cafesByOrigin, stored, createdByOrigin);
      if !dryRun {
        CreatedRows(db, candidates, created, rows);
        SeededParts(same, db, catalog, now);
        assert cafes == CafesAfter(same, candidates, db.cafes) + rows;
        forall r | r in AllReferences(catalog)
          ensures TargetKnown(cafes, targets, r.origin)
        {
          TargetsAreKnown(same, db, catalog, now, targets, r);
        }
      }
    }

    /** The reference pass, the retirement and the batched update. */
    method PlacePass(
        refs: seq<Reference>, byKey: map<PlaceKey, nat>, targets: Targets, counts: Report, dryRun: bool, now: int)
      returns (report: Report)
      requires UniqueKeys(places) && UniquePlaceIds(places) && ConsistentReferences(refs)
               && IndexesRows(byKey, places, KeyOf)
      requires !dryRun ==> forall r :: r in refs ==> TargetKnown(cafes, targets, r.origin)
      modifies this`places, this`nextPlaceId
      ensures report == CountRetired(CountReferences(counts, old(places), refs), old(places), refs)
      ensures dryRun ==> places == old(places) && nextPlaceId == old(nextPlaceId)
      ensures !dryRun ==> var inserted := NewPlaces(old(places), cafes, refs, old(nextPlaceId), now);
                          && places == PlacesAfter(refs, now, old(places)) + inserted
                          && nextPlaceId == old(nextPlaceId) + |inserted|
    {
      hide *;
      var stored := |places|;
      ghost var inserted := NewPlaces(places, cafes, refs, nextPlaceId, now);
      var passed, pending := UpsertReferences(refs, now, dryRun, byKey, counts, targets);
      ghost var upserted := places;
      IncomingKeys(refs);
      report := RetireManaged(refs, KeysOf(refs), stored, dryRun, passed);
      if !dryRun {
        ghost var swept := places;
        TouchUnchanged(pending, now);
        InsertedSeenNow(old(places), cafes, refs, old(nextPlaceId), now);
        PassesCompose(refs, now, old(places), inserted, upserted, swept, passed);
      } else {
        assert upserted[..stored] == old(places);
      }
    }

    /**
     The whole run. It fails exactly on an invalid catalogue, and then, like a dry run, it writes nothing;
     a dry run and an applied run report the same counts.
     */
    method SeedProviderCafes(same: SameValue, catalog: Catalog, dryRun: bool, now: int) returns (result: Result<Report>)
      requires KeyedDb(State())
      modifies this
      ensures result.Ok? <==> Valid(old(State()), catalog)
      ensures result.Ok? ==> result.value == ReportOf(same, old(State()), catalog)
      ensures State() == if result.Ok? && !dryRun then Seeded(same, old(State()), catalog, now) else old(State())
    {
      hide *;
      ghost var db := State();
      var refs := CollectReferences(catalog);
      var error, lookups := Validate(State(), catalog, refs);
      if error.Some? {
        return Error(error.value);
      }
      StateParts();
      ValidParts(db, catalog, lookups);
      var counts, targets := CafePass(same, catalog, lookups, dryRun, now);
      KeyedParts(db);
      var report := PlacePass(refs, lookups.placesByKey, targets, counts, dryRun, now);
      ReportParts(same, db, catalog);
      SeededParts(same, db, catalog, now);
      StateParts();
      return Ok(report);
    }

    lemma StateParts()
      ensures State() == Db(cafes, places, nextCafeId, nextPlaceId)
    {
    }

    /**
     `stage_provider_seed`: a dry run first, then, if asked to, the write. What is applied is what the
     dry run announced, and a failing catalogue is refused by the dry run.
     */
    method StageProviderSeed(same: SameValue, catalog: Catalog, apply: bool, now: int)
      returns (preflight: Result<Report>, applied: Option<Report>)
      requires KeyedDb(State())
      modifies this
      ensures preflight.Ok? <==> Valid(old(State()), catalog)
      ensures applied == if preflight.Ok? && apply then Some(preflight.value) else None
      ensures State() == if applied.Some? then Seeded(same, old(State()), catalog, now) else old(State())
      ensures KeyedDb(State()) && (applied.Some? ==> ConstraintsHold(State()))
    {
      hide *;
      applied := None;
      preflight := SeedProviderCafes(same, catalog, true, now);
      if preflight.Error? || !apply {
        return;
      }
      SeedKeepsConstraints(same, State(), catalog, now);
      var written := SeedProviderCafes(same, catalog, false, now);
      applied := Some(written.value);
    }
  }

  lemma NoCandidates(same: SameValue, stored: seq<Cafe>)
    ensures CafesAfter(same, [], stored) == stored
    ensures MissingCandidates(stored, []) == [] && CountCafes(same, stored, []) == Report(0, 0, 0, 0, 0, 0, 0)
  {
  }

  lemma UniquePrefix(candidates: seq<Candidate>, k: nat)
    requires k <= |candidates| && UniqueCandidates(candidates)
    ensures UniqueCandidates(candidates[..k])
  {
  }

  /** A candidate without a row adds one. */
  lemma CandidateInserts(
      same: SameValue, before: seq<Candidate>, c: Candidate, stored: seq<Cafe>, byOrigin: map<Origin, nat>)
    requires UniqueCandidates(before + [c]) && UniqueOrigins(stored) && IndexesRows(byOrigin, stored, OriginOf)
    requires c.origin !in byOrigin
    ensures var count, candidates := CountCafes(same, stored, before), before + [c];
            && CountCafes(same, stored, candidates) == count.(cafeInserted := count.cafeInserted + 1)
            && MissingCandidates(stored, candidates) == MissingCandidates(stored, before) + [c]
            && CafesAfter(same, candidates, stored) == CafesAfter(same, before, stored)
  {
    hide FindCafe, UniqueCandidates, UniqueOrigins, IndexesRows, CafesAfter, CafeChanges;
    NextCandidateWrites(same, before, c, stored, byOrigin);
    OriginIndexFinds(stored, byOrigin, c.origin);
    assert (before + [c])[..|before|] == before;
  }

  /** A candidate with a row updates its changed columns. */
  lemma CandidateWrites(
      same: SameValue, before: seq<Candidate>, c: Candidate, stored: seq<Cafe>, byOrigin: map<Origin, nat>)
    requires UniqueCandidates(before + [c]) && UniqueOrigins(stored) && IndexesRows(byOrigin, stored, OriginOf)
    requires c.origin in byOrigin
    ensures var count, candidates, i := CountCafes(same, stored, before), before + [c], byOrigin[c.origin];
            var written := CafesAfter(same, before, stored);
            && i < |stored| && written[i] == stored[i]
            && MissingCandidates(stored, candidates) == MissingCandidates(stored, before)
            && if CafeChanges(same, stored[i].columns, c.columns) then
                 && CountCafes(same, stored, candidates) == count.(cafeUpdated := count.cafeUpdated + 1)
                 && CafesAfter(same, candidates, stored)
                    == written[i := stored[i].(columns := Written(same, stored[i].columns, c.columns))]
               else
                 && CountCafes(same, stored, candidates) == count.(cafeUnchanged := count.cafeUnchanged + 1)
                 && CafesAfter(same, candidates, stored) == written
  {
    hide FindCafe, UniqueCandidates, UniqueOrigins, IndexesRows, CafesAfter, CafeChanges, Written;
    NextCandidateWrites(same, before, c, stored, byOrigin);
    OriginIndexFinds(stored, byOrigin, c.origin);
    assert (before + [c])[..|before|] == before;
    var i := byOrigin[c.origin];
    if !CafeChanges(same, stored[i].columns, c.columns) {
      UnchangedIsNotWritten(same, stored[i].columns, c.columns);
    }
  }

  lemma NoReferences(counts: Report, stored: seq<Place>, owners: seq<Cafe>, nextId: nat, now: int)
    ensures PlacesUpserted([], now, stored) + NewPlaces(stored, owners, [], nextId, now) == stored
    ensures NewPlaces(stored, owners, [], nextId, now) == []
    ensures UnchangedIds(stored, []) == [] && CountReferences(counts, stored, []) == counts
  {
  }

  /** A reference without a row adds one. */
  lemma ReferenceInserts(
      counts: Report, before: seq<Reference>, r: Reference, now: int, stored: seq<Place>, owners: seq<Cafe>,
      nextId: nat, byKey: map<PlaceKey, nat>)
    requires ConsistentReferences(before + [r]) && UniqueKeys(stored) && IndexesRows(byKey, stored, KeyOf)
             && r.key !in byKey
    ensures var count, refs := CountReferences(counts, stored, before), before + [r];
            var inserted := NewPlaces(stored, owners, before, nextId, now);
            && CountReferences(counts, stored, refs) == count.(providerInserted := count.providerInserted + 1)
            && UnchangedIds(stored, refs) == UnchangedIds(stored, before)
            && PlacesUpserted(refs, now, stored) == PlacesUpserted(before, now, stored)
            && var cafeId := CafeIdOf(owners, r.origin);
               NewPlaces(stored, owners, refs, nextId, now) ==
               inserted
               + [Place(nextId + |inserted|, cafeId, r.key, r.directUrl, true, r.matchRule, r.matchDistanceM, now, now)]
  {
    hide FindPlace, FindReference, CafeIdOf, UniqueKeys, IndexesRows, ConsistentReferences, PlacesUpserted, NewPlaces;
    NextReferenceWrites(before, r, now, stored, byKey);
    KeyIndexFinds(stored, byKey, r.key);
    NextInsertion(stored, owners, before, r, nextId, now);
    assert (before + [r])[..|before|] == before;
  }

  /** A reference with a row updates it or leaves it for the batched update. */
  lemma ReferenceWrites(
      counts: Report, before: seq<Reference>, r: Reference, now: int, stored: seq<Place>, owners: seq<Cafe>,
      nextId: nat, byKey: map<PlaceKey, nat>)
    requires ConsistentReferences(before + [r]) && UniqueKeys(stored) && IndexesRows(byKey, stored, KeyOf)
             && r.key in byKey
    ensures var count, refs, i := CountReferences(counts, stored, before), before + [r], byKey[r.key];
            var inserted := NewPlaces(stored, owners, before, nextId, now);
            var upserted := PlacesUpserted(before, now, stored);
            && i < |stored| && (upserted + inserted)[i] == stored[i]
            && NewPlaces(stored, owners, refs, nextId, now) == inserted
            && if PlaceChanges(stored[i], r) then
                 && CountReferences(counts, stored, refs) == count.(providerUpdated := count.providerUpdated + 1)
                 && UnchangedIds(stored, refs) == UnchangedIds(stored, before)
                 && PlacesUpserted(refs, now, stored) + inserted
                    == (upserted + inserted)[i := Rewritten(stored[i], r, now)]
               else
                 && CountReferences(counts, stored, refs) == count.(providerUnchanged := count.providerUnchanged + 1)
                 && UnchangedIds(stored, refs) == UnchangedIds(stored, before) + [stored[i].id]
                 && PlacesUpserted(refs, now, stored) == upserted
  {
    hide FindPlace, FindReference, UniqueKeys, IndexesRows, ConsistentReferences, PlacesUpserted, NewPlaces,
         PlaceUpserted, PlaceChanges, CountReferences, UnchangedIds, InsertedPlace, MissingReferences;
    KeyIndexFinds(stored, byKey, r.key);
    var i := byKey[r.key];
    var upserted, inserted := PlacesUpserted(before, now, stored), NewPlaces(stored, owners, before, nextId, now);
    ReferenceCounted(counts, before, r, stored, stored[i]);
    NextReferenceWrites(before, r, now, stored, byKey);
    NextInsertion(stored, owners, before, r, nextId, now);
    UpsertedByOne(before, r, now, stored[i]);
    UpdateInFirst(upserted, inserted, i, PlaceUpserted(before + [r], now, stored[i]));
    assert upserted[i := stored[i]] == upserted;
  }

  lemma ReferenceCounted(counts: Report, before: seq<Reference>, r: Reference, stored: seq<Place>, p: Place)
    requires FindPlace(stored, r.key) == Some(p)
    ensures var count, refs := CountReferences(counts, stored, before), before + [r];
            if PlaceChanges(p, r) then
              && CountReferences(counts, stored, refs) == count.(providerUpdated := count.providerUpdated + 1)
              && UnchangedIds(stored, refs) == UnchangedIds(stored, before)
            else
              && CountReferences(counts, stored, refs) == count.(providerUnchanged := count.providerUnchanged + 1)
              && UnchangedIds(stored, refs) == UnchangedIds(stored, before) + [p.id]
  {
    hide FindPlace, PlaceChanges;
    assert (before + [r])[..|before|] == before;
  }

  lemma UpdateInFirst<T>(a: seq<T>, b: seq<T>, i: nat, x: T)
    requires i < |a|
    ensures a[i := x] + b == (a + b)[i := x] && (a + b)[i] == a[i]
  {
  }

  lemma ConsistentPrefix(refs: seq<Reference>, k: nat)
    requires k <= |refs| && ConsistentReferences(refs)
    ensures ConsistentReferences(refs[..k])
  {
  }

  lemma UpsertedByOne(before: seq<Reference>, r: Reference, now: int, p: Place)
    requires FindReference(before + [r], p.key) == Some(r)
    ensures PlaceUpserted(before + [r], now, p)
            == if PlaceChanges(p, r) then Rewritten(p, r, now) else p
  {
    hide FindReference;
  }

  lemma NextInsertion(
      stored: seq<Place>, owners: seq<Cafe>, before: seq<Reference>, r: Reference, nextId: nat, now: int)
    ensures var inserted := NewPlaces(stored, owners, before, nextId, now);
            NewPlaces(stored, owners, before + [r], nextId, now)
            == if FindPlace(stored, r.key).Some? then inserted
               else inserted + [InsertedPlace(owners, r, nextId + |inserted|, now)]
  {
    hide FindPlace, InsertedPlace, MissingReferences;
    NextMissing(stored, before, r);
  }

  lemma NextMissing(stored: seq<Place>, before: seq<Reference>, r: Reference)
    ensures MissingReferences(stored, before + [r])
         == MissingReferences(stored, before) + (if FindPlace(stored, r.key).None? then [r] else [])
  {
    hide FindPlace;
    assert (before + [r])[..|before|] == before;
  }

  function RetiredRow(refs: seq<Reference>, p: Place): Place {
    if Retires(refs, p) then p.(active := false) else p
  }

  lemma TouchNothing(now: int, places: seq<Place>)
    ensures TouchAll([], now, places) == places
  {
  }

  lemma TouchInTwo(a: seq<nat>, b: seq<nat>, now: int, places: seq<Place>)
    ensures TouchAll(b, now, TouchAll(a, now, places)) == TouchAll(a + b, now, places)
  {
  }

  /** `_all_references`, unsorted. */
  method CollectReferences(catalog: Catalog) returns (refs: seq<Reference>)
    ensures refs == AllReferences(catalog)
  {
    refs := catalog.existingProviderRefs;
    var candidates := catalog.newCafeCandidates;
    for k := 0 to |candidates|
      invariant refs + CandidateReferences(candidates[k..]) == AllReferences(catalog)
    {
      assert candidates[k..][1..] == candidates[k + 1..];
      refs := refs + candidates[k].providerRefs;
    }
  }

  /** The dictionaries over the cafe rows. */
  method IndexCafes(cafes: seq<Cafe>) returns (byOrigin: map<Origin, nat>, byId: map<nat, nat>)
    ensures IndexesRows(byOrigin, cafes, OriginOf) && IndexesRows(byId, cafes, CafeIdKey)
    ensures |byOrigin| == |cafes| <==> UniqueOrigins(cafes)
  {
    hide IndexesRows, Distinct, UniqueOrigins;
    DistinctOrigins(cafes);
    byOrigin := IndexBy(cafes, OriginOf);
    byId := IndexBy(cafes, CafeIdKey);
  }

  /** The dictionaries over the provider place rows. */
  method IndexPlaces(places: seq<Place>) returns (byKey: map<PlaceKey, nat>, byCafeProvider: map<(nat, string), nat>)
    ensures IndexesRows(byKey, places, KeyOf) && IndexesRows(byCafeProvider, places, CafeProviderOf)
    ensures |byKey| == |places| <==> UniqueKeys(places)
    ensures |byCafeProvider| == |places| <==> UniqueCafeProviders(places)
  {
    hide IndexesRows, Distinct, UniqueKeys, UniqueCafeProviders;
    DistinctPlaces(places);
    byKey := IndexBy(places, KeyOf);
    byCafeProvider := IndexBy(places, CafeProviderOf);
  }

  /** The dictionary over the candidates. */
  method IndexCandidates(candidates: seq<Candidate>) returns (byOrigin: map<Origin, nat>)
    ensures IndexesRows(byOrigin, candidates, CandidateOriginOf)
    ensures |byOrigin| == |candidates| <==> UniqueCandidates(candidates)
  {
    hide IndexesRows, Distinct, UniqueCandidates;
    DistinctCandidates(candidates);
    byOrigin := IndexBy(candidates, CandidateOriginOf);
  }

  /** The dictionaries, whose sizes tell whether the rows and the candidates have distinct keys. */
  method BuildLookups(db: Db, candidates: seq<Candidate>) returns (error: Option<string>, lookups: Lookups)
    ensures LooksUp(lookups, db, candidates)
    ensures error.None? <==> ConstraintsHold(db) && UniqueCandidates(candidates)
  {
    hide IndexesRows, UniqueOrigins, UniqueKeys, UniqueCafeProviders, UniqueCandidates;
    var cafesByOrigin, cafesById := IndexCafes(db.cafes);
    var placesByKey, placesByCafeProvider := IndexPlaces(db.places);
    var candidatesByOrigin := IndexCandidates(candidates);
    lookups := Lookups(cafesByOrigin, cafesById, placesByKey, placesByCafeProvider, candidatesByOrigin);
    error :=
      if |cafesByOrigin| != |db.cafes| then Some("database contains duplicate cafe origins")
      else if |placesByKey| != |db.places| then Some("database contains duplicate provider place IDs")
      else if |placesByCafeProvider| != |db.places| then Some("database contains duplicate cafe providers")
      else if |candidatesByOrigin| != |candidates| then Some("provider catalog contains duplicate cafe origins")
      else None;
  }

  /** Every check that comes before the first write. */
  method Validate(db: Db, catalog: Catalog, refs: seq<Reference>) returns (error: Option<string>, lookups: Lookups)
    requires KeyedDb(db) && refs == AllReferences(catalog)
    ensures error.None? <==> Valid(db, catalog)
    ensures error.None? ==> LooksUp(lookups, db, catalog.newCafeCandidates)
  {
    hide AllReferences, LooksUp, KeyedDb, ConstraintsHold, UniqueCandidates, ReferenceFits, ConsistentReferences;
    KeyedParts(db);
    error, lookups := BuildLookups(db, catalog.newCafeCandidates);
    if error.None? {
      error := CheckIncoming(refs);
      if error.None? {
        error := CheckTargets(db, catalog.newCafeCandidates, lookups, refs);
      }
    }
  }

  lemma DistinctOrigins(cafes: seq<Cafe>)
    ensures Distinct(cafes, OriginOf) <==> UniqueOrigins(cafes)
  {
    assert forall i :: 0 <= i < |cafes| ==> OriginOf(cafes[i]) == cafes[i].origin;
  }

  lemma DistinctPlaces(places: seq<Place>)
    ensures Distinct(places, KeyOf) <==> UniqueKeys(places)
    ensures Distinct(places, CafeProviderOf) <==> UniqueCafeProviders(places)
  {
    assert forall i :: 0 <= i < |places| ==> KeyOf(places[i]) == places[i].key;
    assert forall i :: 0 <= i < |places| ==> CafeProviderOf(places[i]) == (places[i].cafeId, places[i].key.provider);
  }

  lemma DistinctCandidates(candidates: seq<Candidate>)
    ensures Distinct(candidates, CandidateOriginOf) <==> UniqueCandidates(candidates)
  {
    assert forall i :: 0 <= i < |candidates| ==> CandidateOriginOf(candidates[i]) == candidates[i].origin;
  }

  lemma KeyedParts(db: Db)
    requires KeyedDb(db)
    ensures UniquePlaceIds(db.places) && UniqueCafeIds(db.cafes)
  {
  }

  lemma InsertedSeenNow(stored: seq<Place>, owners: seq<Cafe>, refs: seq<Reference>, nextId: nat, now: int)
    ensures forall p :: p in NewPlaces(stored, owners, refs, nextId, now) ==> p.lastSeenAt == now
  {
  }

  lemma ValidParts(db: Db, catalog: Catalog, lookups: Lookups)
    requires Valid(db, catalog) && LooksUp(lookups, db, catalog.newCafeCandidates)
    ensures UniqueOrigins(db.cafes) && UniqueKeys(db.places) && UniqueCandidates(catalog.newCafeCandidates)
    ensures ConsistentReferences(AllReferences(catalog))
    ensures IndexesRows(lookups.cafesByOrigin, db.cafes, OriginOf) && IndexesRows(lookups.placesByKey, db.places, KeyOf)
  {
  }

  lemma SeededParts(same: SameValue, db: Db, catalog: Catalog, now: int)
    ensures var after, refs := Seeded(same, db, catalog, now), AllReferences(catalog);
            var created := NewCafes(db.cafes, catalog.newCafeCandidates, db.nextCafeId);
            var inserted := NewPlaces(db.places, after.cafes, refs, db.nextPlaceId, now);
            && after.cafes == CafesAfter(same, catalog.newCafeCandidates, db.cafes) + created
            && after.places == PlacesAfter(refs, now, db.places) + inserted
            && after.nextCafeId == db.nextCafeId + |created| && after.nextPlaceId == db.nextPlaceId + |inserted|
  {
  }

  lemma ReportParts(same: SameValue, db: Db, catalog: Catalog)
    ensures var refs := AllReferences(catalog);
            ReportOf(same, db, catalog)
            == CountRetired(CountReferences(CountCafes(same, db.cafes, catalog.newCafeCandidates), db.places, refs),
                            db.places, refs)
  {
  }

  /** The flushed rows are the cafes the specification creates. */
  lemma CreatedRows(db: Db, candidates: seq<Candidate>, created: seq<Candidate>, rows: seq<Cafe>)
    requires created == MissingCandidates(db.cafes, candidates) && |rows| == |created|
    requires forall k :: 0 <= k < |rows| ==> rows[k] == Cafe(db.nextCafeId + k, created[k].origin, created[k].columns)
    ensures rows == NewCafes(db.cafes, candidates, db.nextCafeId)
  {
    hide MissingCandidates;
  }

  function KeysOf(refs: seq<Reference>): set<PlaceKey> {
    set r | r in refs :: r.key
  }

  lemma IncomingKeys(refs: seq<Reference>)
    ensures forall key :: key in KeysOf(refs) <==> FindReference(refs, key).Some?
  {
    hide FindReference;
    forall key
      ensures key in KeysOf(refs) <==> FindReference(refs, key).Some?
    {
      if FindReference(refs, key).Some? {
        assert FindReference(refs, key).value.key == key;
      }
    }
  }

  lemma {:induction false} SameRetired(counts: Report, a: seq<Place>, b: seq<Place>, refs: seq<Reference>)
    requires |a| == |b| && forall i :: 0 <= i < |a| ==> (Retires(refs, a[i]) <==> Retires(refs, b[i]))
    ensures CountRetired(counts, a, refs) == CountRetired(counts, b, refs)
  {
    hide Retires;
    if a != [] {
      SameRetired(counts, a[..|a| - 1], b[..|b| - 1], refs);
    }
  }

  /** Reference pass, retirement and batched update together write what the specification says. */
  lemma PassesCompose(refs: seq<Reference>, now: int, stored: seq<Place>, inserted: seq<Place>, passed: seq<Place>,
                      swept: seq<Place>, counts: Report)
    requires UniqueKeys(stored) && UniquePlaceIds(stored) && ConsistentReferences(refs)
    requires forall p :: p in inserted ==> p.lastSeenAt == now
    requires passed == PlacesUpserted(refs, now, stored) + inserted
    requires |swept| == |passed| && swept[|stored|..] == passed[|stored|..]
    requires forall i :: 0 <= i < |stored| ==> swept[i] == RetiredRow(refs, passed[i])
    ensures TouchAll(UnchangedIds(stored, refs), now, swept) == PlacesAfter(refs, now, stored) + inserted
    ensures CountRetired(counts, passed[..|stored|], refs) == CountRetired(counts, stored, refs)
  {
    hide Retires, PlaceUpserted, PlaceAfter, UniqueKeys, UniquePlaceIds, ConsistentReferences, UnchangedIds,
         CountRetired;
    var touched := TouchAll(UnchangedIds(stored, refs), now, swept);
    var expected := PlacesAfter(refs, now, stored) + inserted;
    forall i | 0 <= i < |stored|
      ensures touched[i] == expected[i] && (Retires(refs, passed[i]) <==> Retires(refs, stored[i]))
    {
      PassesComposeToPlaceAfter(refs, now, stored, i);
    }
    forall i | |stored| <= i < |swept|
      ensures touched[i] == expected[i]
    {
      assert swept[i] == swept[|stored|..][i - |stored|] == passed[|stored|..][i - |stored|];
      assert inserted[i - |stored|] in inserted;
    }
    assert touched == expected;
    SameRetired(counts, passed[..|stored|], stored, refs);
  }
}
