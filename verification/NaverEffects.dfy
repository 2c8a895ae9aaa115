/**
 Which links one Naver run adds (`seed_naver_place_links` in backend/scripts/seed_naver_place_links.py), in terms of
 the tables and the search alone.
 */
module NaverEffects {
  import opened NaverLinks
  import opened Outcomes
  import opened ProviderSeed

  /** An active cafe behind the start with a road address and without a Naver link. */
  predicate Wanting(cafes: seq<NaverLinks.Cafe>, places: seq<NaverLinks.Place>, after: nat, c: NaverLinks.Cafe) {
    && c in cafes && c.id > after
    && "active" in c.columns && c.columns["active"] == Flag(true)
    && "road_address" in c.columns && c.columns["road_address"].Text? && c.columns["road_address"].text != ""
    && forall p :: p in places ==> !(p.cafeId == c.id && p.key.provider == "naver")
  }

  /** One of the first such cafes, as many as the run may search. */
  predicate Searched(
      cafes: seq<NaverLinks.Cafe>, places: seq<NaverLinks.Place>, after: nat, maxCafes: nat, c: NaverLinks.Cafe) {
    && Wanting(cafes, places, after, c)
    && |set d | d in cafes && Wanting(cafes, places, after, d) && d.id < c.id| < maxCafes
  }

  /** The search found a place for the cafe that it found for no other one, and that no stored link has. */
  ghost predicate GetsLink(
      cafes: seq<NaverLinks.Cafe>, places: seq<NaverLinks.Place>, after: nat, maxCafes: nat, search: Search,
      c: NaverLinks.Cafe) {
    && Searched(cafes, places, after, maxCafes, c) && search(c).Some?
    && (forall d :: Searched(cafes, places, after, maxCafes, d) && d != c && search(d).Some? ==>
                      search(d).value.providerPlaceId != search(c).value.providerPlaceId)
    && forall p :: p in places ==> p.key != PlaceKey("naver", search(c).value.providerPlaceId)
  }

  /** The link of a cafe: the matched place and address, active, verified and seen now. */
  predicate IsLinkOf(p: NaverLinks.Place, c: NaverLinks.Cafe, m: Match, now: int) {
    && p.cafeId == c.id && p.key == PlaceKey("naver", m.providerPlaceId) && p.detailUrl == m.detailUrl && p.active
    && p.matchMethod == "naver_local_exact_name_road_address" && p.matchDistanceM == None
    && p.verifiedAt == now && p.lastSeenAt == now
  }

  // ---------------------------------------------------------------------------------------
  // The batch
  // ---------------------------------------------------------------------------------------

  lemma WantingIsEligible(
      cafes: seq<NaverLinks.Cafe>, places: seq<NaverLinks.Place>, after: nat, c: NaverLinks.Cafe)
    requires InIdOrder(cafes)
    ensures c in Eligible(cafes, places, after) <==> Wanting(cafes, places, after, c)
  {
    EligibleMembers(cafes, places, after);
  }

  lemma InOrderRank(sorted: seq<NaverLinks.Cafe>, k: nat)
    requires InIdOrder(sorted) && k < |sorted|
    ensures |set d | d in sorted && d.id < sorted[k].id| == k
  {
    var front := sorted[..k];
    forall d | d in sorted && d.id < sorted[k].id
      ensures d in front
    {
      var i :| 0 <= i < |sorted| && sorted[i] == d;
      assert i < k ==> front[i] == d;
    }
    forall d | d in front
      ensures d in sorted && d.id < sorted[k].id
    {
      var i :| 0 <= i < k && front[i] == d;
      assert sorted[i] == d;
    }
    assert (set d | d in sorted && d.id < sorted[k].id) == set d | d in front;
    AsManyElements(front);
  }

  lemma {:induction false} AsManyElements(s: seq<NaverLinks.Cafe>)
    requires InIdOrder(s)
    ensures |set d | d in s| == |s|
  {
    if s == [] {
      assert (set d | d in s) == {};
    } else {
      var before, last := s[..|s| - 1], s[|s| - 1];
      AsManyElements(before);
      assert s == before + [last];
      assert (set d | d in s) == (set d | d in before) + {last};
      assert forall i :: 0 <= i < |before| ==> before[i].id < last.id;
    }
  }

  lemma BatchIsSearched(
      cafes: seq<NaverLinks.Cafe>, places: seq<NaverLinks.Place>, after: nat, maxCafes: nat, c: NaverLinks.Cafe)
    requires InIdOrder(cafes)
    ensures c in Batch(cafes, places, after, maxCafes) <==> Searched(cafes, places, after, maxCafes, c)
  {
    hide Eligible, Wanting, MaySearch;
    var eligible, batch := Eligible(cafes, places, after), Batch(cafes, places, after, maxCafes);
    EligibleMembers(cafes, places, after);
    forall d
      ensures d in eligible <==> Wanting(cafes, places, after, d)
    {
      WantingIsEligible(cafes, places, after, d);
    }
    if c in eligible {
      var k :| 0 <= k < |eligible| && eligible[k] == c;
      InOrderRank(eligible, k);
      assert (set d | d in cafes && Wanting(cafes, places, after, d) && d.id < c.id)
          == set d | d in eligible && d.id < c.id by {
        assert forall d :: Wanting(cafes, places, after, d) ==> d in cafes by { WantingIsStored(cafes, places, after); }
      }
      if k < |batch| { assert batch[k] == c; }
    }
    if c in batch {
      var i :| 0 <= i < |batch| && batch[i] == c;
      assert eligible[i] == c;
    }
  }

  lemma WantingIsStored(cafes: seq<NaverLinks.Cafe>, places: seq<NaverLinks.Place>, after: nat)
    ensures forall d :: Wanting(cafes, places, after, d) ==> d in cafes
  {
  }

  // ---------------------------------------------------------------------------------------
  // The discovered links
  // ---------------------------------------------------------------------------------------

  lemma {:induction false} DiscoveredAre(search: Search, batch: seq<NaverLinks.Cafe>, l: Link)
    ensures l in Discovered(search, batch) <==>
            exists c :: c in batch && search(c).Some? && l == LinkOf(c, search(c).value)
  {
    if batch != [] {
      var before, last := batch[..|batch| - 1], batch[|batch| - 1];
      assert batch == before + [last];
      DiscoveredAre(search, before, l);
    }
  }

  lemma {:induction false} NamingAscends(links: seq<Link>, placeId: string)
    requires AscendingLinks(links)
    ensures AscendingLinks(Naming(links, placeId))
  {
    if links != [] {
      var before, last := links[..|links| - 1], links[|links| - 1];
      NamingAscends(before, placeId);
      NamingMembers(before, placeId);
      var named := Naming(before, placeId);
      forall k | 0 <= k < |named|
        ensures named[k].cafeId < last.cafeId
      {
        assert named[k] in named;
        var i :| 0 <= i < |before| && before[i] == named[k];
        assert links[i] == before[i];
      }
    }
  }

  /** A place is named once exactly when no other discovered link names it. */
  lemma NamedOnce(links: seq<Link>, l: Link)
    requires AscendingLinks(links) && l in links
    ensures |Naming(links, l.providerPlaceId)| == 1 <==>
            forall k :: k in links && k != l ==> k.providerPlaceId != l.providerPlaceId
  {
    hide Naming;
    var named := Naming(links, l.providerPlaceId);
    NamingMembers(links, l.providerPlaceId);
    NamingAscends(links, l.providerPlaceId);
    assert l in named;
    if |named| >= 2 {
      assert named[0] in named && named[1] in named && named[0] != named[1];
    }
    if |named| == 1 {
      assert named == [named[0]];
    }
  }

  lemma GetsLinkIsAccepted(
      cafes: seq<NaverLinks.Cafe>, places: seq<NaverLinks.Place>, after: nat, maxCafes: nat, search: Search,
      c: NaverLinks.Cafe)
    requires InIdOrder(cafes) && search(c).Some?
    ensures var links := Discovered(search, Batch(cafes, places, after, maxCafes));
            Searched(cafes, places, after, maxCafes, c) ==>
              && LinkOf(c, search(c).value) in links
              && (CollidesWithNothing(links, places, LinkOf(c, search(c).value))
                  <==> GetsLink(cafes, places, after, maxCafes, search, c))
  {
    hide Searched, Batch, Discovered, Naming;
    var batch := Batch(cafes, places, after, maxCafes);
    var links, l := Discovered(search, batch), LinkOf(c, search(c).value);
    forall d
      ensures d in batch <==> Searched(cafes, places, after, maxCafes, d)
    {
      BatchIsSearched(cafes, places, after, maxCafes, d);
    }
    BatchMembers(cafes, places, after, maxCafes);
    DiscoveredFromBatch(search, batch);
    forall k
      ensures k in links <==> exists d :: d in batch && search(d).Some? && k == LinkOf(d, search(d).value)
    {
      DiscoveredAre(search, batch, k);
    }
    if Searched(cafes, places, after, maxCafes, c) {
      assert l in links;
      NamedOnce(links, l);
      if CollidesWithNothing(links, places, l) {
        forall d | Searched(cafes, places, after, maxCafes, d) && d != c && search(d).Some?
          ensures search(d).value.providerPlaceId != search(c).value.providerPlaceId
        {
          DifferentIds(batch, c, d);
          assert LinkOf(d, search(d).value) in links;
        }
      }
    }
  }

  lemma DifferentIds(sorted: seq<NaverLinks.Cafe>, c: NaverLinks.Cafe, d: NaverLinks.Cafe)
    requires InIdOrder(sorted) && c in sorted && d in sorted && c != d
    ensures c.id != d.id
  {
    var i :| 0 <= i < |sorted| && sorted[i] == c;
    var j :| 0 <= j < |sorted| && sorted[j] == d;
  }

  // ---------------------------------------------------------------------------------------
  // The run
  // ---------------------------------------------------------------------------------------

  /** Every link a run adds is that of a cafe that gets one, with a fresh id, behind the links that were there. */
  lemma AddedLinksAreMatches(
      cafes: seq<NaverLinks.Cafe>, places: seq<NaverLinks.Place>, after: nat, maxCafes: nat, search: Search,
      nextId: nat, now: int, j: nat)
    requires InIdOrder(cafes) && |places| <= j < |AfterRun(cafes, places, after, maxCafes, search, nextId, now)|
    ensures var t := AfterRun(cafes, places, after, maxCafes, search, nextId, now);
            && t[..|places|] == places && t[j].id == nextId + (j - |places|)
            && exists c :: GetsLink(cafes, places, after, maxCafes, search, c)
                           && IsLinkOf(t[j], c, search(c).value, now)
  {
    hide GetsLink, Batch, Discovered, Accepted, CollidesWithNothing;
    var batch := Batch(cafes, places, after, maxCafes);
    var links := Discovered(search, batch);
    var accepted := Accepted(links, places, |links|);
    BatchMembers(cafes, places, after, maxCafes);
    DiscoveredFromBatch(search, batch);
    AcceptedMembers(links, places, |links|);
    AcceptedBelong(cafes, places, after, maxCafes, search);
    assert links[..|links|] == links;
    var l := accepted[j - |places|];
    assert l in accepted;
    DiscoveredAre(search, batch, l);
    var c :| c in batch && search(c).Some? && l == LinkOf(c, search(c).value);
    BatchIsSearched(cafes, places, after, maxCafes, c);
    GetsLinkIsAccepted(cafes, places, after, maxCafes, search, c);
    var t := AfterRun(cafes, places, after, maxCafes, search, nextId, now);
    assert IsLinkOf(t[j], c, search(c).value, now);
  }

  /** Every cafe that gets a link has it after the run. */
  lemma MatchesAreAdded(
      cafes: seq<NaverLinks.Cafe>, places: seq<NaverLinks.Place>, after: nat, maxCafes: nat, search: Search,
      nextId: nat, now: int, c: NaverLinks.Cafe)
    requires InIdOrder(cafes) && GetsLink(cafes, places, after, maxCafes, search, c)
    ensures var t := AfterRun(cafes, places, after, maxCafes, search, nextId, now);
            exists j :: |places| <= j < |t| && IsLinkOf(t[j], c, search(c).value, now)
  {
    hide Searched, Batch, Discovered, Accepted, CollidesWithNothing;
    var batch := Batch(cafes, places, after, maxCafes);
    var links := Discovered(search, batch);
    var accepted := Accepted(links, places, |links|);
    BatchMembers(cafes, places, after, maxCafes);
    DiscoveredFromBatch(search, batch);
    AcceptedMembers(links, places, |links|);
    AcceptedBelong(cafes, places, after, maxCafes, search);
    GetsLinkIsAccepted(cafes, places, after, maxCafes, search, c);
    assert links[..|links|] == links;
    var k :| 0 <= k < |accepted| && accepted[k] == LinkOf(c, search(c).value);
    var t := AfterRun(cafes, places, after, maxCafes, search, nextId, now);
    assert IsLinkOf(t[|places| + k], c, search(c).value, now);
  }
}
