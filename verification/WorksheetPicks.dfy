/**
 Which rows a worksheet session holds (`render_worksheet` and `_reliability_candidates` in
 backend/scripts/prepare_eval_observations.py): the observers take turns, and the second observer's candidates are
 picked by their rank in each distance band, one more in the band whose turn it is.
 */
module WorksheetPicks {
  import opened Outcomes
  import opened Worksheet

  predicate InSession(c: Candidate, s: FieldSession) {
    c.poiValid && c.hotspotName == s.hotspotName
  }

  /** The order of the worksheet: near before mid before fringe, then by cafe id. */
  predicate ListedBefore(a: Candidate, b: Candidate) {
    if a.distanceBand == b.distanceBand then a.cafeId < b.cafeId
    else a.distanceBand == "near" || (a.distanceBand == "mid" && b.distanceBand == "fringe")
  }

  /** How many candidates of the session are listed before this one. */
  ghost function Position(candidates: seq<Candidate>, s: FieldSession, c: Candidate): nat {
    |set d | d in candidates && InSession(d, s) && ListedBefore(d, c)|
  }

  ghost function Peers(candidates: seq<Candidate>, s: FieldSession, band: string): set<Candidate> {
    set d | d in candidates && InSession(d, s) && d.distanceBand == band
  }

  /** How many candidates of the same session and band have a smaller id. */
  ghost function BandRank(candidates: seq<Candidate>, s: FieldSession, c: Candidate): nat {
    |set d | d in Peers(candidates, s, c.distanceBand) && d.cafeId < c.cafeId|
  }

  /** The band that gives two candidates to the second observer. */
  function BandInTurn(sessionIndex: nat): string {
    if sessionIndex % 3 == 0 then "near" else if sessionIndex % 3 == 1 then "mid" else "fringe"
  }

  /** Both observers see this candidate. */
  ghost predicate SeenTwice(candidates: seq<Candidate>, s: FieldSession, sessionIndex: nat, c: Candidate)
    requires c in candidates && InSession(c, s)
  {
    var peers, rank := Peers(candidates, s, c.distanceBand), BandRank(candidates, s, c);
    assert c in peers;
    || rank == sessionIndex % |peers|
    || (c.distanceBand == BandInTurn(sessionIndex) && rank == (sessionIndex + 1) % |peers|)
  }

  /** The primary row of a candidate goes to the observers in turn; a reliability row goes to the other one. */
  ghost predicate RowOf(
      candidates: seq<Candidate>, s: FieldSession, sessionIndex: nat, observers: (string, string), c: Candidate, r: Row)
    requires c in candidates && InSession(c, s)
  {
    var evenTurn := (Position(candidates, s, c) + sessionIndex) % 2 == 0;
    && r.cafeId == c.cafeId && r.slot == s.slot
    && (r.role.Primary? ==> r.observerId == if evenTurn then observers.0 else observers.1)
    && (r.role.Reliability? ==> r.observerId == (if evenTurn then observers.1 else observers.0)
                                && SeenTwice(candidates, s, sessionIndex, c))
  }

  // ---------------------------------------------------------------------------------------
  // Sorted lists of candidates
  // ---------------------------------------------------------------------------------------

  ghost predicate Listed(sorted: seq<Candidate>) {
    forall i, j :: 0 <= i < j < |sorted| ==> ListedBefore(sorted[i], sorted[j])
  }

  /** The elements in front of an index are those listed before its element. */
  lemma RankInSorted(sorted: seq<Candidate>, k: nat)
    requires UniqueCafes(sorted) && Listed(sorted) && k < |sorted|
    ensures |set d | d in sorted && ListedBefore(d, sorted[k])| == k
  {
    var front := sorted[..k];
    forall d | d in sorted && ListedBefore(d, sorted[k])
      ensures d in front
    {
      var i :| 0 <= i < |sorted| && sorted[i] == d;
      if i < k { assert front[i] == d; }
    }
    forall d | d in front
      ensures d in sorted && ListedBefore(d, sorted[k])
    {
      var i :| 0 <= i < k && front[i] == d;
      assert sorted[i] == d;
    }
    assert (set d | d in sorted && ListedBefore(d, sorted[k])) == set d | d in front;
    AsManyElements(front);
  }

  lemma {:induction false} AsManyElements(s: seq<Candidate>)
    requires UniqueCafes(s)
    ensures |set d | d in s| == |s|
  {
    if s == [] {
      assert (set d | d in s) == {};
    } else {
      HeadIsUnique(s);
      AsManyElements(s[1..]);
      assert (set d | d in s) == {s[0]} + set d | d in s[1..];
    }
  }

  lemma SortedIsListed(sorted: seq<Candidate>)
    requires UniqueCafes(sorted) && SortedByKey(sorted) && forall c :: c in sorted ==> KnownBand(c.distanceBand)
    ensures Listed(sorted)
  {
    forall i, j | 0 <= i < j < |sorted|
      ensures ListedBefore(sorted[i], sorted[j])
    {
      assert KeyAtMost(sorted[i], sorted[j]) && sorted[i] in sorted && sorted[j] in sorted;
    }
  }

  lemma PrependListed(c: Candidate, rest: seq<Candidate>)
    requires Listed(rest) && forall d :: d in rest ==> ListedBefore(c, d)
    ensures Listed([c] + rest)
  {
    hide ListedBefore;
    forall j | 0 <= j < |rest|
      ensures ListedBefore(c, rest[j])
    {
      assert rest[j] in rest;
    }
  }

  lemma HeadIsListed(sorted: seq<Candidate>)
    requires Listed(sorted) && sorted != []
    ensures Listed(sorted[1..]) && forall d :: d in sorted[1..] ==> ListedBefore(sorted[0], d)
  {
    hide ListedBefore;
    forall d | d in sorted[1..]
      ensures ListedBefore(sorted[0], d)
    {
      var i :| 0 <= i < |sorted[1..]| && sorted[1..][i] == d;
      assert sorted[i + 1] == d;
    }
  }

  /** The candidates of one band keep the order of the list. */
  lemma {:induction false} BandIsListed(sorted: seq<Candidate>, band: string)
    requires UniqueCafes(sorted) && Listed(sorted)
    ensures Listed(InBand(sorted, band))
  {
    hide ListedBefore, Listed, UniqueCafes;
    if sorted != [] {
      HeadIsUnique(sorted);
      HeadIsListed(sorted);
      InBandUnique(sorted[1..], band);
      BandIsListed(sorted[1..], band);
      PrependListed(sorted[0], InBand(sorted[1..], band));
      assert [] + InBand(sorted[1..], band) == InBand(sorted[1..], band);
    }
  }

  // ---------------------------------------------------------------------------------------
  // The rows of a session
  // ---------------------------------------------------------------------------------------

  /** What a rendered session was rendered from: its candidates in listed order, and the picks among them. */
  lemma RenderedFrom(candidates: seq<Candidate>, s: FieldSession, sessionIndex: nat, observers: (string, string))
    returns (ordered: seq<Candidate>, selected: set<int>)
    requires UniqueCafes(candidates) && RenderSession(candidates, s, sessionIndex, observers).Ok?
    ensures UniqueCafes(ordered) && Listed(ordered)
    ensures forall c :: c in ordered <==> c in candidates && InSession(c, s)
    ensures forall c :: c in ordered ==> KnownBand(c.distanceBand)
    ensures ReliabilityCandidates(ordered, sessionIndex) == Ok(selected)
    ensures RenderSession(candidates, s, sessionIndex, observers).value
         == SessionRows(ordered, s.slot, observers, sessionIndex, selected, |ordered|)
  {
    hide ReliabilityCandidates, SessionRows, Sort, SessionCandidates;
    SessionCandidatesUnique(candidates, s);
    SortKeeps(SessionCandidates(candidates, s));
    ordered := OrderedSessionCandidates(candidates, s).value;
    selected := ReliabilityCandidates(ordered, sessionIndex).value;
    SortedIsListed(ordered);
  }

  lemma PositionIsIndex(candidates: seq<Candidate>, s: FieldSession, ordered: seq<Candidate>, k: nat)
    requires UniqueCafes(ordered) && Listed(ordered)
    requires forall c :: c in ordered <==> c in candidates && InSession(c, s)
    requires k < |ordered|
    ensures Position(candidates, s, ordered[k]) == k
  {
    hide ListedBefore, InSession;
    RankInSorted(ordered, k);
    assert (set d | d in candidates && InSession(d, s) && ListedBefore(d, ordered[k]))
        == set d | d in ordered && ListedBefore(d, ordered[k]);
  }

  lemma RankIsIndex(candidates: seq<Candidate>, s: FieldSession, ordered: seq<Candidate>, band: string, k: nat)
    requires UniqueCafes(ordered) && Listed(ordered)
    requires forall c :: c in ordered <==> c in candidates && InSession(c, s)
    requires k < |InBand(ordered, band)|
    ensures var l := InBand(ordered, band);
            BandRank(candidates, s, l[k]) == k && |Peers(candidates, s, band)| == |l| && l[k].distanceBand == band
  {
    hide InSession;
    var l := InBand(ordered, band);
    InBandUnique(ordered, band);
    BandIsListed(ordered, band);
    RankInSorted(l, k);
    AsManyElements(l);
    assert l[k] in l;
    assert Peers(candidates, s, band) == set d | d in l;
    assert (set d | d in Peers(candidates, s, l[k].distanceBand) && d.cafeId < l[k].cafeId)
        == set d | d in l && ListedBefore(d, l[k]);
  }

  lemma PickedIsRanked(
      candidates: seq<Candidate>, s: FieldSession, ordered: seq<Candidate>, band: string, c: Candidate, n: nat)
    requires UniqueCafes(ordered) && Listed(ordered)
    requires forall d :: d in ordered <==> d in candidates && InSession(d, s)
    requires c in ordered && c.distanceBand == band && InBand(ordered, band) != []
    ensures var l := InBand(ordered, band);
            && |Peers(candidates, s, band)| == |l|
            && (l[n % |l|].cafeId == c.cafeId <==> BandRank(candidates, s, c) == n % |l|)
  {
    hide InSession, ListedBefore;
    var l := InBand(ordered, band);
    InBandUnique(ordered, band);
    var k :| 0 <= k < |l| && l[k] == c;
    RankIsIndex(candidates, s, ordered, band, k);
    assert l[n % |l|] != l[k] ==> n % |l| != k;
  }

  lemma OtherBandDiffers(ordered: seq<Candidate>, band: string, c: Candidate, k: nat)
    requires UniqueCafes(ordered) && c in ordered && c.distanceBand != band && k < |InBand(ordered, band)|
    ensures InBand(ordered, band)[k].cafeId != c.cafeId
  {
    InBandUnique(ordered, band);
    assert InBand(ordered, band)[k] in InBand(ordered, band);
    DifferentCafes(ordered, InBand(ordered, band)[k], c);
  }

  /** The picks are made by rank in every band, and twice in the band whose turn it is. */
  lemma PicksAreByRank(
      candidates: seq<Candidate>, s: FieldSession, sessionIndex: nat, ordered: seq<Candidate>, selected: set<int>,
      c: Candidate)
    requires UniqueCafes(ordered) && Listed(ordered)
    requires forall d :: d in ordered <==> d in candidates && InSession(d, s)
    requires ReliabilityCandidates(ordered, sessionIndex) == Ok(selected)
    requires c in ordered && KnownBand(c.distanceBand)
    ensures c.cafeId in selected <==> SeenTwice(candidates, s, sessionIndex, c)
  {
    hide InSession, ListedBefore, InBand, UniqueCafes, Peers, BandRank;
    var turn := BandInTurn(sessionIndex);
    assert turn == RotatedBand(sessionIndex);
    var near, mid, fringe := InBand(ordered, "near"), InBand(ordered, "mid"), InBand(ordered, "fringe");
    var rotated := InBand(ordered, turn);
    var band := c.distanceBand;
    PickedIsRanked(candidates, s, ordered, band, c, sessionIndex);
    PickedIsRanked(candidates, s, ordered, band, c, sessionIndex + 1);
    if band != "near" { OtherBandDiffers(ordered, "near", c, sessionIndex % |near|); }
    if band != "mid" { OtherBandDiffers(ordered, "mid", c, sessionIndex % |mid|); }
    if band != "fringe" { OtherBandDiffers(ordered, "fringe", c, sessionIndex % |fringe|); }
    if band != turn { OtherBandDiffers(ordered, turn, c, (sessionIndex + 1) % |rotated|); }
  }

  lemma {:induction false} RowsOfFirst(
      ordered: seq<Candidate>, slot: string, observers: (string, string), sessionIndex: nat, selected: set<int>,
      n: nat, r: Row)
    requires n <= |ordered|
    ensures r in SessionRows(ordered, slot, observers, sessionIndex, selected, n) <==>
            exists k :: 0 <= k < n
                        && r in CandidateRows(ordered[k], slot, observers, (k + sessionIndex) % 2 == 1, selected)
  {
    hide CandidateRows;
    if n > 0 { RowsOfFirst(ordered, slot, observers, sessionIndex, selected, n - 1, r); }
  }

  lemma CandidateRowIs(
      candidates: seq<Candidate>, s: FieldSession, sessionIndex: nat, observers: (string, string),
      ordered: seq<Candidate>, selected: set<int>, k: nat, r: Row)
    requires UniqueCafes(ordered) && Listed(ordered)
    requires forall d :: d in ordered <==> d in candidates && InSession(d, s)
    requires forall d :: d in ordered ==> KnownBand(d.distanceBand)
    requires ReliabilityCandidates(ordered, sessionIndex) == Ok(selected) && k < |ordered|
    ensures r in CandidateRows(ordered[k], s.slot, observers, (k + sessionIndex) % 2 == 1, selected) <==>
            ordered[k] in candidates && InSession(ordered[k], s)
            && RowOf(candidates, s, sessionIndex, observers, ordered[k], r)
  {
    hide ReliabilityCandidates, SeenTwice, Position, InSession, ListedBefore, UniqueCafes;
    assert ordered[k] in ordered;
    PositionIsIndex(candidates, s, ordered, k);
    PicksAreByRank(candidates, s, sessionIndex, ordered, selected, ordered[k]);
  }

  /**
   A rendered session holds exactly the primary row of each valid candidate of its hotspot, the observers taking
   turns in listed order, and the other observer's row of each candidate that is seen twice.
   */
  lemma SessionHoldsExactly(
      candidates: seq<Candidate>, s: FieldSession, sessionIndex: nat, observers: (string, string), r: Row)
    requires UniqueCafes(candidates) && RenderSession(candidates, s, sessionIndex, observers).Ok?
    ensures r in RenderSession(candidates, s, sessionIndex, observers).value <==>
            exists c :: c in candidates && InSession(c, s) && RowOf(candidates, s, sessionIndex, observers, c, r)
  {
    hide RenderSession, RowOf, InSession, CandidateRows, ReliabilityCandidates, ListedBefore, UniqueCafes;
    var ordered, selected := RenderedFrom(candidates, s, sessionIndex, observers);
    RowsOfFirst(ordered, s.slot, observers, sessionIndex, selected, |ordered|, r);
    forall k | 0 <= k < |ordered|
      ensures r in CandidateRows(ordered[k], s.slot, observers, (k + sessionIndex) % 2 == 1, selected) <==>
              ordered[k] in candidates && InSession(ordered[k], s)
              && RowOf(candidates, s, sessionIndex, observers, ordered[k], r)
    {
      CandidateRowIs(candidates, s, sessionIndex, observers, ordered, selected, k, r);
    }
    if c :| c in candidates && InSession(c, s) && RowOf(candidates, s, sessionIndex, observers, c, r) {
      assert c in ordered;
      var k :| 0 <= k < |ordered| && ordered[k] == c;
    }
  }
}
