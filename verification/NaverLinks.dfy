/**
 The Naver link enrichment (`seed_naver_place_links` in backend/scripts/seed_naver_place_links.py): one
 batch of cafes is searched, and the links that collide with nothing are added.
 */
module NaverLinks {
  import opened Outcomes
  import ProviderSeed
  import ProviderSeedSession

  type Cafe = ProviderSeed.Cafe
  type Place = ProviderSeed.Place

  const NAVER_LOCAL_DAILY_CALL_LIMIT := 25_000
  const MATCH_METHOD := "naver_local_exact_name_road_address"

  datatype Match = Match(providerPlaceId: string, detailUrl: string)

  /** The search for a cafe and the strict match of its response. */
  type Search = Cafe -> Option<Match>

  datatype Link = Link(cafeId: nat, providerPlaceId: string, detailUrl: string)

  /** The cafe table in the order of its primary key. */
  predicate InIdOrder(cafes: seq<Cafe>) {
    forall i, j :: 0 <= i < j < |cafes| ==> cafes[i].id < cafes[j].id
  }

  // ---------------------------------------------------------------------------------------
  // The batch
  // ---------------------------------------------------------------------------------------

  predicate HasNaver(places: seq<Place>, cafeId: int) {
    exists p :: p in places && p.cafeId == cafeId && p.key.provider == "naver"
  }

  /** The row has the values the query and the filter behind it ask for. */
  predicate Searchable(c: Cafe) {
    && "active" in c.columns && c.columns["active"] == ProviderSeed.Flag(true)
    && "road_address" in c.columns && c.columns["road_address"].Text? && c.columns["road_address"].text != ""
  }

  /** A cafe that a run starting after `after` may search. */
  predicate MaySearch(places: seq<Place>, after: int, c: Cafe) {
    Searchable(c) && c.id > after && !HasNaver(places, c.id)
  }

  function Eligible(cafes: seq<Cafe>, places: seq<Place>, after: int): seq<Cafe> {
    if cafes == [] then []
    else (if MaySearch(places, after, cafes[0]) then [cafes[0]] else []) + Eligible(cafes[1..], places, after)
  }

  function Batch(cafes: seq<Cafe>, places: seq<Place>, after: int, maxCafes: nat): seq<Cafe> {
    var eligible := Eligible(cafes, places, after);
    if maxCafes <= |eligible| then eligible[..maxCafes] else eligible
  }

  function LinkOf(c: Cafe, m: Match): Link {
    Link(c.id, m.providerPlaceId, m.detailUrl)
  }

  /** The links the searches of a batch discover, in the order of the batch. */
  function Discovered(search: Search, batch: seq<Cafe>): seq<Link> {
    if batch == [] then []
    else
      var last := batch[|batch| - 1];
      Discovered(search, batch[..|batch| - 1]) + (if search(last).Some? then [LinkOf(last, search(last).value)] else [])
  }

  // ---------------------------------------------------------------------------------------
  // Which links are accepted
  // ---------------------------------------------------------------------------------------

  /** The discovered links that name a place. */
  function Naming(links: seq<Link>, placeId: string): seq<Link> {
    if links == [] then []
    else
      var last := links[|links| - 1];
      Naming(links[..|links| - 1], placeId) + (if last.providerPlaceId == placeId then [last] else [])
  }

  function NaverKey(placeId: string): ProviderSeed.PlaceKey {
    ProviderSeed.PlaceKey("naver", placeId)
  }

  /** The place is discovered once in this batch, and no stored row has it. */
  predicate CollidesWithNothing(links: seq<Link>, places: seq<Place>, link: Link) {
    |Naming(links, link.providerPlaceId)| == 1
    && forall p :: p in places ==> p.key != NaverKey(link.providerPlaceId)
  }

  /** The accepted links among the first ones of a batch, in its order. */
  function Accepted(links: seq<Link>, places: seq<Place>, n: nat): seq<Link>
    requires n <= |links|
  {
    if n == 0 then []
    else
      Accepted(links, places, n - 1)
      + (if CollidesWithNothing(links, places, links[n - 1]) then [links[n - 1]] else [])
  }

  function Rows(links: seq<Link>, nextId: nat, now: int): seq<Place>
    requires forall l :: l in links ==> l.cafeId >= 0
  {
    seq(|links|, k requires 0 <= k < |links| =>
      assert links[k] in links;
      ProviderSeed.Place(nextId + k, links[k].cafeId, NaverKey(links[k].providerPlaceId), links[k].detailUrl, true,
                         MATCH_METHOD, None, now, now))
  }

  // ---------------------------------------------------------------------------------------
  // Batches
  // ---------------------------------------------------------------------------------------

  lemma {:induction false} EligibleMembers(cafes: seq<Cafe>, places: seq<Place>, after: int)
    requires InIdOrder(cafes)
    ensures InIdOrder(Eligible(cafes, places, after))
    ensures forall c :: c in Eligible(cafes, places, after) <==> c in cafes && MaySearch(places, after, c)
  {
    hide MaySearch;
    if cafes != [] {
      EligibleMembers(cafes[1..], places, after);
      assert cafes == [cafes[0]] + cafes[1..];
      var rest := Eligible(cafes[1..], places, after);
      forall k | 0 <= k < |rest|
        ensures cafes[0].id < rest[k].id
      {
        assert rest[k] in rest && rest[k] in cafes[1..];
        var i :| 0 <= i < |cafes[1..]| && cafes[1..][i] == rest[k];
        assert cafes[i + 1] == rest[k];
      }
    }
  }

  /** The discovered links belong to cafes of the batch, one at most to each, in id order. */
  lemma {:induction false} DiscoveredFromBatch(search: Search, batch: seq<Cafe>)
    requires InIdOrder(batch)
    ensures AscendingLinks(Discovered(search, batch))
    ensures forall l :: l in Discovered(search, batch) ==> FoundFor(search, batch, l)
  {
    hide FoundFor, InIdOrder;
    if batch != [] {
      var before, last := batch[..|batch| - 1], batch[|batch| - 1];
      assert batch == before + [last];
      ButLastInOrder(before, last);
      DiscoveredFromBatch(search, before);
      var links := Discovered(search, before);
      forall l | l in links
        ensures l.cafeId < last.id && FoundFor(search, batch, l)
      {
        FoundBefore(search, before, last, l);
      }
      if search(last).Some? {
        LastIsFound(search, before, last);
      }
      assert forall k :: 0 <= k < |links| ==> links[k] in links;
    }
  }

  ghost predicate FoundFor(search: Search, batch: seq<Cafe>, l: Link) {
    exists c :: c in batch && search(c).Some? && l == LinkOf(c, search(c).value)
  }

  lemma ButLastInOrder(before: seq<Cafe>, last: Cafe)
    requires InIdOrder(before + [last])
    ensures InIdOrder(before)
  {
    assert forall i :: 0 <= i < |before| ==> (before + [last])[i] == before[i];
  }

  lemma FoundBefore(search: Search, before: seq<Cafe>, last: Cafe, l: Link)
    requires InIdOrder(before + [last]) && FoundFor(search, before, l)
    ensures l.cafeId < last.id && FoundFor(search, before + [last], l)
  {
    var c :| c in before && search(c).Some? && l == LinkOf(c, search(c).value);
    var i :| 0 <= i < |before| && before[i] == c;
    assert (before + [last])[i] == c && c in before + [last] && (before + [last])[|before|] == last;
  }

  lemma LastIsFound(search: Search, before: seq<Cafe>, last: Cafe)
    requires search(last).Some?
    ensures FoundFor(search, before + [last], LinkOf(last, search(last).value))
  {
    assert last in before + [last];
  }

  predicate AscendingLinks(links: seq<Link>) {
    forall i, j :: 0 <= i < j < |links| ==> links[i].cafeId < links[j].cafeId
  }

  lemma {:induction false} NamingMembers(links: seq<Link>, placeId: string)
    ensures forall l :: l in Naming(links, placeId) <==> l in links && l.providerPlaceId == placeId
  {
    if links != [] {
      assert links == links[..|links| - 1] + [links[|links| - 1]];
      NamingMembers(links[..|links| - 1], placeId);
    }
  }

  lemma {:induction false} NamingTwo(links: seq<Link>, placeId: string, i: nat, j: nat)
    requires i < j < |links| && links[i].providerPlaceId == placeId && links[j].providerPlaceId == placeId
    ensures |Naming(links, placeId)| >= 2
  {
    var before, last := links[..|links| - 1], links[|links| - 1];
    if j < |links| - 1 {
      NamingTwo(before, placeId, i, j);
    } else {
      NamingMembers(before, placeId);
      assert before[i] in before;
      assert before[i] in Naming(before, placeId);
    }
  }

  lemma {:induction false} AcceptedMembers(links: seq<Link>, places: seq<Place>, n: nat)
    requires n <= |links| && AscendingLinks(links)
    ensures AscendingLinks(Accepted(links, places, n))
    ensures forall l :: l in Accepted(links, places, n) <==> l in links[..n] && CollidesWithNothing(links, places, l)
  {
    hide CollidesWithNothing;
    if n > 0 {
      AcceptedMembers(links, places, n - 1);
      assert links[..n] == links[..n - 1] + [links[n - 1]];
      var before := Accepted(links, places, n - 1);
      forall k | 0 <= k < |before|
        ensures before[k].cafeId < links[n - 1].cafeId
      {
        assert before[k] in before && before[k] in links[..n - 1];
        var i :| 0 <= i < n - 1 && links[i] == before[k];
      }
    }
  }

  /** Two accepted links never name one place. */
  lemma AcceptedPlacesDiffer(links: seq<Link>, places: seq<Place>, a: Link, b: Link)
    requires a in links && b in links && a != b && CollidesWithNothing(links, places, a)
    ensures a.providerPlaceId != b.providerPlaceId
  {
    var i :| 0 <= i < |links| && links[i] == a;
    var j :| 0 <= j < |links| && links[j] == b;
    if a.providerPlaceId == b.providerPlaceId {
      NamingTwo(links, a.providerPlaceId, if i < j then i else j, if i < j then j else i);
    }
  }

  /**
   A stored owner of a discovered place is always another cafe: the owner test of the acceptance loop
   never lets an owned place through.
   */
  lemma OwnerIsAnotherCafe(
      cafes: seq<Cafe>, places: seq<Place>, after: int, maxCafes: nat, search: Search, link: Link, owner: Place)
    requires InIdOrder(cafes) && link in Discovered(search, Batch(cafes, places, after, maxCafes))
    requires owner in places && owner.key == NaverKey(link.providerPlaceId)
    ensures owner.cafeId != link.cafeId
  {
    BatchMembers(cafes, places, after, maxCafes);
    DiscoveredFromBatch(search, Batch(cafes, places, after, maxCafes));
  }

  lemma BatchMembers(cafes: seq<Cafe>, places: seq<Place>, after: int, maxCafes: nat)
    requires InIdOrder(cafes)
    ensures InIdOrder(Batch(cafes, places, after, maxCafes))
    ensures forall c :: c in Batch(cafes, places, after, maxCafes) ==> c in cafes && MaySearch(places, after, c)
  {
    hide MaySearch;
    EligibleMembers(cafes, places, after);
  }

  // ---------------------------------------------------------------------------------------
  // Safety
  // ---------------------------------------------------------------------------------------

  /** Adding the accepted links keeps both uniqueness constraints on provider places. */
  lemma AcceptedLinksKeepConstraints(cafes: seq<Cafe>, places: seq<Place>, after: nat, maxCafes: nat, search: Search,
                                     nextId: nat, now: int)
    requires InIdOrder(cafes) && ProviderSeed.UniqueKeys(places) && ProviderSeed.UniqueCafeProviders(places)
    ensures var links := Discovered(search, Batch(cafes, places, after, maxCafes));
            var accepted := Accepted(links, places, |links|);
            && (forall l :: l in accepted ==> l.cafeId >= 0)
            && ProviderSeed.UniqueKeys(places + Rows(accepted, nextId, now))
            && ProviderSeed.UniqueCafeProviders(places + Rows(accepted, nextId, now))
  {
    hide Batch, Discovered, Accepted, CollidesWithNothing, HasNaver;
    var batch := Batch(cafes, places, after, maxCafes);
    var links := Discovered(search, batch);
    var accepted := Accepted(links, places, |links|);
    BatchMembers(cafes, places, after, maxCafes);
    DiscoveredFromBatch(search, batch);
    AcceptedMembers(links, places, |links|);
    assert links[..|links|] == links;
    forall l | l in accepted
      ensures l.cafeId >= 0 && !HasNaver(places, l.cafeId)
      ensures forall p :: p in places ==> p.key != NaverKey(l.providerPlaceId)
    {
      FreeOfStored(links, places, l);
    }
    var rows := Rows(accepted, nextId, now);
    forall i, k | 0 <= i < |places| && 0 <= k < |rows|
      ensures places[i].key != rows[k].key
      ensures !(places[i].cafeId == rows[k].cafeId && places[i].key.provider == rows[k].key.provider)
    {
      assert accepted[k] in accepted && places[i] in places;
      NoNaverRow(places, accepted[k].cafeId, places[i]);
    }
    forall j, k | 0 <= j < k < |rows|
      ensures rows[j].key != rows[k].key
    {
      assert accepted[j] in accepted && accepted[k] in accepted;
      AcceptedPlacesDiffer(links, places, accepted[j], accepted[k]);
    }
  }

  lemma FreeOfStored(links: seq<Link>, places: seq<Place>, link: Link)
    requires CollidesWithNothing(links, places, link)
    ensures forall p :: p in places ==> p.key != NaverKey(link.providerPlaceId)
  {
  }

  lemma NoNaverRow(places: seq<Place>, cafeId: int, p: Place)
    requires !HasNaver(places, cafeId) && p in places
    ensures !(p.cafeId == cafeId && p.key.provider == "naver")
  {
  }

  // ---------------------------------------------------------------------------------------
  // Accounting
  // ---------------------------------------------------------------------------------------

  /** Discovered links that share their place with another one of the batch. */
  function ReverseCollisions(links: seq<Link>, n: nat): nat
    requires n <= |links|
  {
    if n == 0 then 0
    else ReverseCollisions(links, n - 1) + (if |Naming(links, links[n - 1].providerPlaceId)| != 1 then 1 else 0)
  }

  predicate Owned(places: seq<Place>, placeId: string) {
    exists p :: p in places && p.key == NaverKey(placeId)
  }

  /** Discovered links alone in the batch whose place has a stored owner. */
  function OwnerCollisions(links: seq<Link>, places: seq<Place>, n: nat): nat
    requires n <= |links|
  {
    if n == 0 then 0
    else
      OwnerCollisions(links, places, n - 1)
      + (if |Naming(links, links[n - 1].providerPlaceId)| == 1 && Owned(places, links[n - 1].providerPlaceId) then 1
         else 0)
  }

  /** Every matched cafe is inserted or counted as one of the two collisions. */
  lemma {:induction false} MatchedAreAccountedFor(links: seq<Link>, places: seq<Place>, n: nat)
    requires n <= |links|
    ensures n == |Accepted(links, places, n)| + ReverseCollisions(links, n) + OwnerCollisions(links, places, n)
  {
    hide Naming;
    if n > 0 {
      MatchedAreAccountedFor(links, places, n - 1);
    }
  }

  // ---------------------------------------------------------------------------------------
  // Resuming
  // ---------------------------------------------------------------------------------------

  lemma {:induction false} EligibleAgrees(
      cafes: seq<Cafe>, places: seq<Place>, after: int, more: seq<Place>, later: int)
    requires forall c :: c in cafes ==> (MaySearch(places, after, c) <==> MaySearch(more, later, c))
    ensures Eligible(cafes, places, after) == Eligible(cafes, more, later)
  {
    hide MaySearch;
    if cafes != [] {
      assert cafes == [cafes[0]] + cafes[1..];
      EligibleAgrees(cafes[1..], places, after, more, later);
    }
  }

  /** Rows added for cafes up to a searched one do not change which later cafes are eligible. */
  lemma LaterCafesStayEligible(cafes: seq<Cafe>, places: seq<Place>, rows: seq<Place>, last: int)
    requires forall p :: p in rows ==> p.cafeId <= last
    ensures Eligible(cafes, places + rows, last) == Eligible(cafes, places, last)
  {
    forall c: Cafe | c in cafes
      ensures MaySearch(places, last, c) <==> MaySearch(places + rows, last, c)
    {
      if c.id > last {
        if HasNaver(places, c.id) {
          var p :| p in places && p.cafeId == c.id && p.key.provider == "naver";
          assert p in places + rows;
        }
        if HasNaver(places + rows, c.id) {
          var p :| p in places + rows && p.cafeId == c.id && p.key.provider == "naver";
          assert p in places;
        }
      }
    }
    EligibleAgrees(cafes, places, last, places + rows, last);
  }

  /** Starting after a cafe drops the eligible ones up to it. */
  lemma {:induction false} EligibleAfterBatch(cafes: seq<Cafe>, places: seq<Place>, after: int, n: nat)
    requires InIdOrder(cafes) && 0 < n <= |Eligible(cafes, places, after)|
    ensures var eligible := Eligible(cafes, places, after);
            Eligible(cafes, places, eligible[n - 1].id) == eligible[n..]
  {
    hide Eligible, InIdOrder, HasNaver;
    var eligible := Eligible(cafes, places, after);
    EligibleMembers(cafes, places, after);
    EligibleMembers(cafes, places, eligible[n - 1].id);
    var rest := Eligible(cafes, places, eligible[n - 1].id);
    assert eligible[n - 1] in eligible;
    forall c
      ensures c in rest <==> c in eligible[n..]
    {
      LaterInOrder(eligible, n, c);
    }
    LaterKeepOrder(eligible, n);
    SameElementsSameOrder(rest, eligible[n..]);
  }

  lemma LaterKeepOrder(cafes: seq<Cafe>, n: nat)
    requires n <= |cafes| && InIdOrder(cafes)
    ensures InIdOrder(cafes[n..])
  {
  }

  lemma LaterInOrder(cafes: seq<Cafe>, n: nat, c: Cafe)
    requires 0 < n <= |cafes| && InIdOrder(cafes)
    ensures c in cafes[n..] <==> c in cafes && c.id > cafes[n - 1].id
  {
    if c in cafes && c.id > cafes[n - 1].id {
      var i :| 0 <= i < |cafes| && cafes[i] == c;
      assert cafes[n..][i - n] == c;
    }
    if c in cafes[n..] {
      var i :| 0 <= i < |cafes[n..]| && cafes[n..][i] == c;
      assert cafes[i + n] == c;
    }
  }

  /** A list in strict id order is determined by its elements. */
  lemma {:induction false} SameElementsSameOrder(a: seq<Cafe>, b: seq<Cafe>)
    requires InIdOrder(a) && InIdOrder(b) && forall c :: c in a <==> c in b
    ensures a == b
  {
    if a == [] {
      assert forall k :: 0 <= k < |b| ==> b[k] in b;
    } else {
      assert a[0] in a;
      assert a[0] in b;
      assert b[0] in b;
      assert b[0] in a;
      assert a[0] == b[0];
      forall c
        ensures c in a[1..] <==> c in b[1..]
      {
        TailMembers(a, c);
        TailMembers(b, c);
      }
      SameElementsSameOrder(a[1..], b[1..]);
      assert a == [a[0]] + a[1..] && b == [b[0]] + b[1..];
    }
  }

  lemma TailMembers(a: seq<Cafe>, c: Cafe)
    requires a != [] && InIdOrder(a)
    ensures c in a[1..] <==> c in a && c != a[0]
  {
    if c in a[1..] {
      var i :| 0 <= i < |a[1..]| && a[1..][i] == c;
      assert a[i + 1] == c;
    }
    if c in a && c != a[0] {
      var i :| 0 <= i < |a| && a[i] == c;
      assert a[1..][i - 1] == c;
    }
  }

  /** The table after a run that writes, and where the next run starts. */
  function AfterRun(
      cafes: seq<Cafe>, places: seq<Place>, after: nat, maxCafes: nat, search: Search, nextId: nat, now: int)
    : seq<Place>
    requires InIdOrder(cafes)
  {
    var links := Discovered(search, Batch(cafes, places, after, maxCafes));
    AcceptedBelong(cafes, places, after, maxCafes, search);
    places + Rows(Accepted(links, places, |links|), nextId, now)
  }

  /** An accepted link belongs to a cafe of the batch. */
  lemma AcceptedBelong(cafes: seq<Cafe>, places: seq<Place>, after: nat, maxCafes: nat, search: Search)
    requires InIdOrder(cafes)
    ensures var batch := Batch(cafes, places, after, maxCafes);
            var links := Discovered(search, batch);
            forall l :: l in Accepted(links, places, |links|) ==>
                          l.cafeId >= 0 && exists c :: c in batch && c.id == l.cafeId
  {
    hide Batch, Discovered, Accepted, CollidesWithNothing, HasNaver;
    var batch := Batch(cafes, places, after, maxCafes);
    var links := Discovered(search, batch);
    BatchMembers(cafes, places, after, maxCafes);
    DiscoveredFromBatch(search, batch);
    AcceptedMembers(links, places, |links|);
    assert links[..|links|] == links;
    forall l | l in Accepted(links, places, |links|)
      ensures l.cafeId >= 0 && exists c :: c in batch && c.id == l.cafeId
    {
      var c :| c in batch && search(c).Some? && l == LinkOf(c, search(c).value);
    }
  }

  /** The searches of the runs that follow one another, each starting after the last cafe of the one before. */
  function SearchedByRuns(
      cafes: seq<Cafe>, places: seq<Place>, after: nat, maxCafes: nat, search: Search, nextId: nat, now: int)
    : seq<Cafe>
    requires InIdOrder(cafes) && maxCafes >= 1
    decreases |Eligible(cafes, places, after)|
  {
    var batch := Batch(cafes, places, after, maxCafes);
    if batch == [] then []
    else
      NextRunStarts(cafes, places, after, maxCafes, search, nextId, now);
      var last := batch[|batch| - 1].id;
      var stored := AfterRun(cafes, places, after, maxCafes, search, nextId, now);
      batch + SearchedByRuns(cafes, stored, last, maxCafes, search, nextId + |stored| - |places|, now)
  }

  /** What a run leaves to the next one: the eligible cafes behind its batch. */
  lemma NextRunStarts(
      cafes: seq<Cafe>, places: seq<Place>, after: nat, maxCafes: nat, search: Search, nextId: nat, now: int)
    requires InIdOrder(cafes) && maxCafes >= 1 && Eligible(cafes, places, after) != []
    ensures var batch, eligible := Batch(cafes, places, after, maxCafes), Eligible(cafes, places, after);
            && 0 < |batch| <= |eligible| && batch[|batch| - 1].id > after && batch == eligible[..|batch|]
            && Eligible(cafes, AfterRun(cafes, places, after, maxCafes, search, nextId, now), batch[|batch| - 1].id)
               == eligible[|batch|..]
  {
    hide Eligible, Discovered, Accepted, CollidesWithNothing, HasNaver;
    var batch, eligible := Batch(cafes, places, after, maxCafes), Eligible(cafes, places, after);
    var links, last := Discovered(search, batch), batch[|batch| - 1];
    EligibleMembers(cafes, places, after);
    assert batch == eligible[..|batch|] && last == eligible[|batch| - 1] && last in eligible;
    EligibleAfterBatch(cafes, places, after, |batch|);
    AcceptedBelong(cafes, places, after, maxCafes, search);
    var accepted := Accepted(links, places, |links|);
    var rows := Rows(accepted, nextId, now);
    forall p | p in rows
      ensures p.cafeId <= last.id
    {
      var k :| 0 <= k < |rows| && rows[k] == p;
      assert accepted[k] in accepted;
      var c :| c in batch && c.id == accepted[k].cafeId;
      var i :| 0 <= i < |batch| && batch[i] == c;
      assert eligible[i] == c;
    }
    LaterCafesStayEligible(cafes, places, rows, last.id);
  }

  /**
   Runs resumed after the last searched cafe search every eligible cafe once, in id order, whatever
   links they write on the way.
   */
  lemma {:induction false} ResumedRunsSearchEveryCafeOnce(
      cafes: seq<Cafe>, places: seq<Place>, after: nat, maxCafes: nat, search: Search, nextId: nat, now: int)
    requires InIdOrder(cafes) && maxCafes >= 1
    ensures SearchedByRuns(cafes, places, after, maxCafes, search, nextId, now) == Eligible(cafes, places, after)
    decreases |Eligible(cafes, places, after)|
  {
    hide Eligible, AfterRun, Batch, InIdOrder;
    if Eligible(cafes, places, after) != [] {
      NextRunStarts(cafes, places, after, maxCafes, search, nextId, now);
      var batch := Batch(cafes, places, after, maxCafes);
      var last := batch[|batch| - 1].id;
      var stored := AfterRun(cafes, places, after, maxCafes, search, nextId, now);
      AfterRunGrows(cafes, places, after, maxCafes, search, nextId, now);
      ResumedRunsSearchEveryCafeOnce(cafes, stored, last, maxCafes, search, nextId + |stored| - |places|, now);
      assert Eligible(cafes, places, after) == batch + Eligible(cafes, stored, last);
    } else {
      assert Batch(cafes, places, after, maxCafes) == [] by { NothingEligible(cafes, places, after, maxCafes); }
    }
  }

  lemma NothingEligible(cafes: seq<Cafe>, places: seq<Place>, after: int, maxCafes: nat)
    requires Eligible(cafes, places, after) == []
    ensures Batch(cafes, places, after, maxCafes) == []
  {
  }

  lemma AfterRunGrows(
      cafes: seq<Cafe>, places: seq<Place>, after: nat, maxCafes: nat, search: Search, nextId: nat, now: int)
    requires InIdOrder(cafes)
    ensures |AfterRun(cafes, places, after, maxCafes, search, nextId, now)| >= |places|
  {
  }

  // ---------------------------------------------------------------------------------------
  // The run
  // ---------------------------------------------------------------------------------------

  datatype Report = Report(
    eligibleCount: nat, searchedCount: nat, matchedCount: nat, insertedCount: nat,
    reverseCollisions: nat, existingOwnerCollisions: nat, lastSearchedCafeId: Option<int>, acceptedLinks: seq<Link>)

  /** The report of a run. */
  function ReportOf(cafes: seq<Cafe>, places: seq<Place>, after: int, maxCafes: nat, search: Search): Report {
    var batch := Batch(cafes, places, after, maxCafes);
    var links := Discovered(search, batch);
    var accepted := Accepted(links, places, |links|);
    Report(|Eligible(cafes, places, after)|, |batch|, |links|, |accepted|, ReverseCollisions(links, |links|),
           OwnerCollisions(links, places, |links|), if batch == [] then None else Some(batch[|batch| - 1].id), accepted)
  }

  /** The links whose place is among the given ones. */
  predicate Decided(keys: set<string>, link: Link) {
    link.providerPlaceId in keys
  }

  function ReverseAmong(links: seq<Link>, n: nat, keys: set<string>): nat
    requires n <= |links|
  {
    if n == 0 then 0
    else
      ReverseAmong(links, n - 1, keys)
      + (if Decided(keys, links[n - 1]) && |Naming(links, links[n - 1].providerPlaceId)| != 1 then 1 else 0)
  }

  function OwnedAmong(links: seq<Link>, places: seq<Place>, n: nat, keys: set<string>): nat
    requires n <= |links|
  {
    if n == 0 then 0
    else
      OwnedAmong(links, places, n - 1, keys)
      + (if Decided(keys, links[n - 1]) && |Naming(links, links[n - 1].providerPlaceId)| == 1
            && Owned(places, links[n - 1].providerPlaceId) then 1 else 0)
  }

  /** Deciding one more place adds the links that name it. */
  lemma {:induction false} OneMorePlace(links: seq<Link>, places: seq<Place>, n: nat, keys: set<string>, key: string)
    requires n <= |links| && key !in keys
    ensures ReverseAmong(links, n, keys + {key})
         == ReverseAmong(links, n, keys) + (if |Naming(links, key)| != 1 then |Naming(links[..n], key)| else 0)
    ensures OwnedAmong(links, places, n, keys + {key})
         == OwnedAmong(links, places, n, keys)
            + (if |Naming(links, key)| == 1 && Owned(places, key) then |Naming(links[..n], key)| else 0)
  {
    hide Owned;
    if n > 0 {
      OneMorePlace(links, places, n - 1, keys, key);
      assert links[..n][..n - 1] == links[..n - 1];
    }
  }

  lemma {:induction false} EveryPlaceDecided(links: seq<Link>, places: seq<Place>, n: nat, keys: set<string>)
    requires n <= |links| && forall l :: l in links ==> Decided(keys, l)
    ensures ReverseAmong(links, n, keys) == ReverseCollisions(links, n)
    ensures OwnedAmong(links, places, n, keys) == OwnerCollisions(links, places, n)
  {
    hide Owned, Naming;
    if n > 0 {
      EveryPlaceDecided(links, places, n - 1, keys);
    }
  }

  lemma {:induction false} NoPlaceDecided(links: seq<Link>, places: seq<Place>, n: nat)
    requires n <= |links|
    ensures ReverseAmong(links, n, {}) == 0 && OwnedAmong(links, places, n, {}) == 0
  {
    hide Owned, Naming;
    if n > 0 {
      NoPlaceDecided(links, places, n - 1);
    }
  }

  /** `defaultdict(list)` over the discovered links. */
  method GroupByPlace(links: seq<Link>) returns (groups: map<string, seq<Link>>)
    ensures forall key :: key in groups <==> exists l :: l in links && l.providerPlaceId == key
    ensures forall key :: key in groups ==> groups[key] == Naming(links, key)
  {
    groups := map[];
    for k := 0 to |links|
      invariant forall key :: (if key in groups then groups[key] else []) == Naming(links[..k], key)
      invariant forall key :: key in groups ==> groups[key] != []
    {
      var l := links[k];
      assert links[..k + 1][..k] == links[..k];
      var group := if l.providerPlaceId in groups then groups[l.providerPlaceId] else [];
      groups := groups[l.providerPlaceId := group + [l]];
    }
    assert links[..|links|] == links;
    forall key
      ensures key in groups <==> exists l :: l in links && l.providerPlaceId == key
    {
      NamingMembers(links, key);
      if key in groups {
        assert Naming(links, key)[0] in Naming(links, key);
      }
    }
  }

  function InsertLink(l: Link, sorted: seq<Link>): seq<Link> {
    if sorted == [] || l.cafeId < sorted[0].cafeId then [l] + sorted else [sorted[0]] + InsertLink(l, sorted[1..])
  }

  /** `accepted.sort`: every cafe has one link at most, so the cafe id alone decides. */
  function SortLinks(links: seq<Link>): seq<Link> {
    if links == [] then [] else InsertLink(links[|links| - 1], SortLinks(links[..|links| - 1]))
  }

  predicate DistinctCafes(links: seq<Link>) {
    forall i, j :: 0 <= i < j < |links| ==> links[i].cafeId != links[j].cafeId
  }

  lemma {:induction false} InsertLinkKeepsOrder(l: Link, sorted: seq<Link>)
    requires AscendingLinks(sorted) && forall k :: k in sorted ==> k.cafeId != l.cafeId
    ensures AscendingLinks(InsertLink(l, sorted))
    ensures forall k :: k in InsertLink(l, sorted) <==> k == l || k in sorted
  {
    if sorted != [] {
      assert sorted == [sorted[0]] + sorted[1..];
      assert sorted[0] in sorted;
      if l.cafeId > sorted[0].cafeId {
        var rest := InsertLink(l, sorted[1..]);
        TailAscends(sorted);
        InsertLinkKeepsOrder(l, sorted[1..]);
        hide InsertLink;
        forall k | 0 <= k < |rest|
          ensures sorted[0].cafeId < rest[k].cafeId
        {
          assert rest[k] in rest;
        }
      }
    }
  }

  lemma TailAscends(sorted: seq<Link>)
    requires AscendingLinks(sorted) && sorted != []
    ensures AscendingLinks(sorted[1..]) && forall k :: k in sorted[1..] ==> sorted[0].cafeId < k.cafeId
  {
    forall k | k in sorted[1..]
      ensures sorted[0].cafeId < k.cafeId
    {
      var i :| 0 <= i < |sorted[1..]| && sorted[1..][i] == k;
      assert sorted[i + 1] == k;
    }
  }

  lemma {:induction false} SortLinksOrders(links: seq<Link>)
    requires DistinctCafes(links)
    ensures AscendingLinks(SortLinks(links))
    ensures forall k :: k in SortLinks(links) <==> k in links
  {
    hide InsertLink, AscendingLinks;
    if links == [] {
      NoLinksAscend();
    } else {
      var before, last := links[..|links| - 1], links[|links| - 1];
      assert links == before + [last];
      assert forall i :: 0 <= i < |before| ==> before[i] == links[i];
      SortLinksOrders(before);
      forall k | k in SortLinks(before)
        ensures k.cafeId != last.cafeId
      {
        var i :| 0 <= i < |before| && before[i] == k;
      }
      InsertLinkKeepsOrder(last, SortLinks(before));
    }
  }

  lemma NoLinksAscend()
    ensures AscendingLinks([])
  {
  }

  lemma {:induction false} SameLinksSameOrder(a: seq<Link>, b: seq<Link>)
    requires AscendingLinks(a) && AscendingLinks(b) && forall l :: l in a <==> l in b
    ensures a == b
  {
    if a == [] {
      assert forall k :: 0 <= k < |b| ==> b[k] in b;
    } else {
      assert a[0] in a;
      assert a[0] in b;
      assert b[0] in b;
      assert b[0] in a;
      assert a[0] == b[0];
      forall l
        ensures l in a[1..] <==> l in b[1..]
      {
        TailLinks(a, l);
        TailLinks(b, l);
      }
      SameLinksSameOrder(a[1..], b[1..]);
      assert a == [a[0]] + a[1..] && b == [b[0]] + b[1..];
    }
  }

  lemma TailLinks(a: seq<Link>, l: Link)
    requires a != [] && AscendingLinks(a)
    ensures l in a[1..] <==> l in a && l != a[0]
  {
    if l in a[1..] {
      var i :| 0 <= i < |a[1..]| && a[1..][i] == l;
      assert a[i + 1] == l;
    }
    if l in a && l != a[0] {
      var i :| 0 <= i < |a| && a[i] == l;
      assert a[1..][i - 1] == l;
    }
  }

  /** What the acceptance loop has gathered once it has decided some places. */
  ghost predicate Gathered(links: seq<Link>, places: seq<Place>, keys: set<string>, accepted: seq<Link>) {
    && (forall l :: l in accepted <==> l in links && Decided(keys, l) && CollidesWithNothing(links, places, l))
    && DistinctCafes(accepted)
  }

  lemma GatherNone(links: seq<Link>, places: seq<Place>, keys: set<string>, key: string, accepted: seq<Link>)
    requires Gathered(links, places, keys, accepted)
    requires |Naming(links, key)| != 1 || Owned(places, key)
    ensures Gathered(links, places, keys + {key}, accepted)
  {
    hide Naming, DistinctCafes;
    forall l | l in links && l.providerPlaceId == key
      ensures !CollidesWithNothing(links, places, l)
    {
    }
  }

  lemma GatherOne(links: seq<Link>, places: seq<Place>, keys: set<string>, key: string, accepted: seq<Link>)
    requires AscendingLinks(links) && Gathered(links, places, keys, accepted) && key !in keys
    requires |Naming(links, key)| == 1 && !Owned(places, key)
    ensures Gathered(links, places, keys + {key}, accepted + [Naming(links, key)[0]])
  {
    hide AscendingLinks;
    var one := Naming(links, key)[0];
    NamingMembers(links, key);
    assert one in Naming(links, key);
    hide Naming;
    forall l | l in links && l.providerPlaceId == key
      ensures l == one
    {
      assert l in Naming(links, key);
    }
    assert CollidesWithNothing(links, places, one) by {
      assert forall p :: p in places ==> p.key != NaverKey(key);
    }
    forall k | 0 <= k < |accepted|
      ensures accepted[k].cafeId != one.cafeId
    {
      assert accepted[k] in accepted;
      LinksOfOneCafe(links, accepted[k], one);
    }
  }

  lemma LinksOfOneCafe(links: seq<Link>, a: Link, b: Link)
    requires AscendingLinks(links) && a in links && b in links && a != b
    ensures a.cafeId != b.cafeId
  {
    var i :| 0 <= i < |links| && links[i] == a;
    var j :| 0 <= j < |links| && links[j] == b;
  }

  /** The acceptance loop, which visits the discovered places in any order, and the final sort. */
  method Accept(links: seq<Link>, places: seq<Place>, byKey: map<ProviderSeed.PlaceKey, nat>)
    returns (accepted: seq<Link>, reverse: nat, owned: nat)
    requires AscendingLinks(links) && ProviderSeedSession.IndexesRows(byKey, places, ProviderSeedSession.KeyOf)
    requires forall l :: l in links ==> !HasNaver(places, l.cafeId)
    ensures accepted == Accepted(links, places, |links|)
    ensures reverse == ReverseCollisions(links, |links|) && owned == OwnerCollisions(links, places, |links|)
  {
    hide AscendingLinks, Naming, Accepted, CollidesWithNothing, Owned, ReverseAmong, OwnedAmong, Gathered, HasNaver,
         ProviderSeedSession.IndexesRows;
    var groups := GroupByPlace(links);
    accepted, reverse, owned := [], 0, 0;
    ghost var decided: set<string> := {};
    var keys := groups.Keys;
    NoPlaceDecided(links, places, |links|);
    NothingGathered(links, places);
    assert links[..|links|] == links;
    while keys != {}
      invariant keys == groups.Keys - decided && decided <= groups.Keys
      invariant Gathered(links, places, decided, accepted)
      invariant reverse == ReverseAmong(links, |links|, decided) && owned == OwnedAmong(links, places, |links|, decided)
      decreases |keys|
    {
      var key :| key in keys;
      var candidates := groups[key];
      OneMorePlace(links, places, |links|, decided, key);
      if |candidates| != 1 {
        reverse := reverse + |candidates|;
        GatherNone(links, places, decided, key, accepted);
      } else {
        var candidate := candidates[0];
        OnlyCandidate(links, key);
        OwnerIsFound(places, byKey, key, candidate.cafeId);
        if NaverKey(key) in byKey && places[byKey[NaverKey(key)]].cafeId != candidate.cafeId {
          owned := owned + 1;
          GatherNone(links, places, decided, key, accepted);
        } else {
          GatherOne(links, places, decided, key, accepted);
          accepted := accepted + [candidate];
        }
      }
      keys := keys - {key};
      decided := decided + {key};
    }
    NoPlaceIsLeft(links, groups, decided);
    EveryPlaceDecided(links, places, |links|, decided);
    EverythingGathered(links, places, decided, accepted);
    accepted := SortLinks(accepted);
  }

  lemma NoPlaceIsLeft(links: seq<Link>, groups: map<string, seq<Link>>, decided: set<string>)
    requires forall key :: key in groups <==> exists l :: l in links && l.providerPlaceId == key
    requires groups.Keys - decided == {}
    ensures forall l :: l in links ==> Decided(decided, l)
  {
    forall l | l in links
      ensures Decided(decided, l)
    {
      assert l.providerPlaceId in groups;
      assert l.providerPlaceId !in groups.Keys - decided;
    }
  }

  lemma OnlyCandidate(links: seq<Link>, key: string)
    requires |Naming(links, key)| == 1
    ensures Naming(links, key)[0] in links
  {
    NamingMembers(links, key);
    assert Naming(links, key)[0] in Naming(links, key);
  }

  /** For a cafe without a Naver row, a stored owner is another cafe. */
  lemma OwnerIsFound(places: seq<Place>, byKey: map<ProviderSeed.PlaceKey, nat>, key: string, cafeId: int)
    requires ProviderSeedSession.IndexesRows(byKey, places, ProviderSeedSession.KeyOf) && !HasNaver(places, cafeId)
    ensures NaverKey(key) in byKey ==> byKey[NaverKey(key)] < |places|
    ensures Owned(places, key) <==> NaverKey(key) in byKey && places[byKey[NaverKey(key)]].cafeId != cafeId
  {
    if NaverKey(key) in byKey {
      assert ProviderSeedSession.KeyOf(places[byKey[NaverKey(key)]]) == NaverKey(key);
      assert places[byKey[NaverKey(key)]] in places;
    }
    if Owned(places, key) {
      var p :| p in places && p.key == NaverKey(key);
      var i :| 0 <= i < |places| && places[i] == p;
      assert ProviderSeedSession.KeyOf(places[i]) in byKey;
    }
  }

  lemma NothingGathered(links: seq<Link>, places: seq<Place>)
    ensures Gathered(links, places, {}, [])
  {
  }

  lemma EverythingGathered(links: seq<Link>, places: seq<Place>, keys: set<string>, accepted: seq<Link>)
    requires AscendingLinks(links) && Gathered(links, places, keys, accepted)
    requires forall l :: l in links ==> Decided(keys, l)
    ensures SortLinks(accepted) == Accepted(links, places, |links|)
  {
    hide AscendingLinks, Accepted, SortLinks, CollidesWithNothing;
    SortLinksOrders(accepted);
    AcceptedMembers(links, places, |links|);
    assert links[..|links|] == links;
    SameLinksSameOrder(SortLinks(accepted), Accepted(links, places, |links|));
  }

  class Session {
    var places: seq<Place>
    var nextPlaceId: nat

    constructor (stored: seq<Place>, nextId: nat)
      ensures places == stored && nextPlaceId == nextId
    {
      places, nextPlaceId := stored, nextId;
    }

    /**
     One run over the cafe table. Bad arguments and duplicate place rows are refused without a write; a dry
     run reports what a write would do, and a write adds the accepted links.
     */
    method SeedNaverPlaceLinks(cafes: seq<Cafe>, search: Search, dryRun: bool, maxCafes: int, after: int, now: int)
      returns (result: Result<Report>)
      requires InIdOrder(cafes)
      modifies this
      ensures result.Ok? <==>
              1 <= maxCafes <= NAVER_LOCAL_DAILY_CALL_LIMIT && after >= 0 && ProviderSeed.UniqueKeys(old(places))
      ensures result.Ok? ==> result.value == ReportOf(cafes, old(places), after, maxCafes, search)
      ensures if result.Ok? && !dryRun then
                && places == AfterRun(cafes, old(places), after, maxCafes, search, old(nextPlaceId), now)
                && nextPlaceId == old(nextPlaceId) + result.value.insertedCount
              else places == old(places) && nextPlaceId == old(nextPlaceId)
    {
      hide ProviderSeed.UniqueKeys, ProviderSeedSession.Distinct, ProviderSeedSession.IndexesRows, InIdOrder,
           AscendingLinks, Accepted, CollidesWithNothing, Discovered, Eligible, HasNaver;
      if !(1 <= maxCafes <= NAVER_LOCAL_DAILY_CALL_LIMIT) {
        return Error("max_cafes is out of range");
      }
      if after < 0 {
        return Error("after_cafe_id must be >= 0");
      }
      var byKey, byCafeProvider := ProviderSeedSession.IndexPlaces(places);
      if |byKey| != |places| {
        return Error("database contains duplicate provider place IDs");
      }
      var eligible := SelectEligible(cafes, places, after);
      var batch := if maxCafes <= |eligible| then eligible[..maxCafes] else eligible;
      var links := Discover(search, batch);
      LinksAreFree(cafes, places, after, maxCafes, search);
      var accepted, reverse, owned := Accept(links, places, byKey);
      AcceptedBelong(cafes, places, after, maxCafes, search);
      if !dryRun {
        places := places + Rows(accepted, nextPlaceId, now);
        nextPlaceId := nextPlaceId + |accepted|;
      }
      return Ok(Report(|eligible|, |batch|, |links|, |accepted|, reverse, owned,
                       if batch == [] then None else Some(batch[|batch| - 1].id), accepted));
    }
  }

  lemma EligibleNext(cafes: seq<Cafe>, places: seq<Place>, after: int)
    ensures cafes == [] ==> Eligible(cafes, places, after) == []
    ensures cafes != [] ==>
              Eligible(cafes, places, after) ==
              (if MaySearch(places, after, cafes[0]) then [cafes[0]] else []) + Eligible(cafes[1..], places, after)
  {
    hide MaySearch;
  }

  /** The searchable cafes, in the order of the query. */
  method SelectEligible(cafes: seq<Cafe>, places: seq<Place>, after: int) returns (eligible: seq<Cafe>)
    ensures eligible == Eligible(cafes, places, after)
  {
    hide Searchable;
    var cafesWithNaver := set p | p in places && p.key.provider == "naver" :: p.cafeId;
    assert forall id :: HasNaver(places, id) <==> id in cafesWithNaver;
    hide HasNaver, Eligible;
    eligible := [];
    EligibleNext([], places, after);
    assert cafes[0..] == cafes && cafes[|cafes|..] == [];
    for k := 0 to |cafes|
      invariant eligible + Eligible(cafes[k..], places, after) == Eligible(cafes, places, after)
    {
      var c := cafes[k];
      assert cafes[k..][1..] == cafes[k + 1..] && cafes[k..][0] == c;
      EligibleNext(cafes[k..], places, after);
      if Searchable(c) && c.id > after && c.id !in cafesWithNaver {
        eligible := eligible + [c];
      }
    }
  }

  /** One search per cafe of the batch. */
  method Discover(search: Search, batch: seq<Cafe>) returns (links: seq<Link>)
    ensures links == Discovered(search, batch)
  {
    links := [];
    for k := 0 to |batch|
      invariant links == Discovered(search, batch[..k])
    {
      assert batch[..k + 1][..k] == batch[..k];
      var found := search(batch[k]);
      if found.Some? {
        links := links + [LinkOf(batch[k], found.value)];
      }
    }
    assert batch[..|batch|] == batch;
  }

  /** No cafe of a batch has a Naver row. */
  lemma LinksAreFree(cafes: seq<Cafe>, places: seq<Place>, after: int, maxCafes: nat, search: Search)
    requires InIdOrder(cafes)
    ensures var links := Discovered(search, Batch(cafes, places, after, maxCafes));
            AscendingLinks(links) && forall l :: l in links ==> !HasNaver(places, l.cafeId)
  {
    hide HasNaver, Batch, Discovered;
    var batch := Batch(cafes, places, after, maxCafes);
    BatchMembers(cafes, places, after, maxCafes);
    DiscoveredFromBatch(search, batch);
  }
}
