/**
 Which data versions keep the tile cache truthful (`setCacheVersion` and the cache label in
 frontend/src/cafe-provider.ts). The label of a missing version is the text "unknown". The only caller,
 frontend/src/map.ts:440-442, sends a time and a count joined by a colon, so it sends neither that text nor
 a missing version.
 */
module TileVersions {
  import opened CafeSummaries
  import opened Outcomes
  import opened TileCache
  import opened TileGeometry
  import opened TileProvider

  const UNKNOWN: Version := Some("unknown")

  /** The versions a client may be told; it starts without one. */
  type Sent = Version -> bool

  ghost predicate SendsOnly(sent: Sent, steps: seq<Step>) {
    forall step :: step in steps && step.SetCacheVersion? ==> sent(step.version)
  }

  /** Every lookup that hits lists what the server has for the current version in that tile. */
  ghost predicate HitsTruthful(p: Projection, served: Served, s: Provider) {
    forall tile :: HitTruthful(p, served, s, tile)
  }

  ghost predicate HitTruthful(p: Projection, served: Served, s: Provider, tile: Tile) {
    var found := ReadValue(s.cache, TileKey(VersionLabel(s.version), tile), s.now);
    found.Some? ==> Lists(found.value, Matching(served(s.version), TileBounds(p, tile)))
  }

  // ---------------------------------------------------------------------------------------
  // Runs that never name the unknown version
  // ---------------------------------------------------------------------------------------

  /** The catalogues, with that of the text "unknown" replaced by that of no version. */
  function WithoutUnknown(served: Served): Served {
    v => if v == UNKNOWN then served(None) else served(v)
  }

  predicate NodeKnown(n: Node) {
    n.InFlight? ==> n.version != UNKNOWN
  }

  /** Neither the current version nor that of a request under way is the text "unknown". */
  ghost predicate NeverUnknown(s: Provider) {
    s.version != UNKNOWN && forall c, n :: c in s.calls && n in c.frontier ==> NodeKnown(n)
  }

  lemma NodesStayKnown(s: Provider, call: nat, index: nat, put: seq<Node>)
    requires NeverUnknown(s) && HasNode(s, call, index) && forall n :: n in put ==> NodeKnown(n)
    ensures NeverUnknown(WithNodes(s, call, index, put))
  {
    var c, t := s.calls[call], WithNodes(s, call, index, put);
    assert c in s.calls;
    forall d, n | d in t.calls && n in d.frontier
      ensures NodeKnown(n)
    {
      if d !in s.calls {
        assert d == c.(frontier := Replace(c.frontier, index, put));
        assert n in put || n in c.frontier;
      }
    }
  }

  /** Such a step is the same step over the replaced catalogues. */
  lemma KnownStep(p: Projection, served: Served, s: Provider, step: Step)
    requires NeverUnknown(s) && Enabled(p, served, s, step) && step != SetCacheVersion(UNKNOWN)
    ensures Enabled(p, WithoutUnknown(served), s, step)
    ensures Next(p, WithoutUnknown(served), s, step) == Next(p, served, s, step)
    ensures NeverUnknown(Next(p, served, s, step))
  {
    hide RootTiles, IsReply, TileBounds, AfterRead, AfterStore, ReadValue, WithNodes;
    if OnTile(step) {
      var c := s.calls[step.call];
      assert c in s.calls && c.frontier[step.index] in c.frontier;
      var n := c.frontier[step.index];
      NodesStayKnown(s, step.call, step.index, [Failed(n.tile)]);
      if step.Visit? {
        VisitStaysKnown(s, step.call, step.index);
      } else if step.Receive? {
        assert NodeKnown(n) && WithoutUnknown(served)(n.version) == served(n.version);
        ReceiveStaysKnown(s, step.call, step.index, step.reply);
      }
    }
  }

  lemma VisitStaysKnown(s: Provider, call: nat, index: nat)
    requires NeverUnknown(s) && HasNode(s, call, index) && s.calls[call].frontier[index].Pending?
    ensures NeverUnknown(VisitNode(s, call, index))
  {
    hide WithNodes, AfterRead, ReadValue;
    var n := s.calls[call].frontier[index];
    var key := TileKey(VersionLabel(s.version), n.tile);
    var read := s.(cache := AfterRead(s.cache, key, s.now));
    match ReadValue(s.cache, key, s.now)
    case Some(features) => NodesStayKnown(read, call, index, [Done(n.tile, features)]);
    case None =>
      NodesStayKnown(read, call, index, Children(n.tile, n.depth + 1));
      NodesStayKnown(read, call, index, [InFlight(n.tile, n.depth, s.version)]);
  }

  lemma ReceiveStaysKnown(s: Provider, call: nat, index: nat, reply: Reply)
    requires NeverUnknown(s) && HasNode(s, call, index) && s.calls[call].frontier[index].InFlight?
    ensures NeverUnknown(ReceiveReply(s, call, index, reply))
  {
    hide WithNodes, AfterStore;
    var n := s.calls[call].frontier[index];
    NodesStayKnown(s, call, index, [Failed(n.tile)]);
    NodesStayKnown(s.(splitTiles := s.splitTiles + {n.tile}), call, index, Children(n.tile, n.depth + 1));
    var key := TileKey(VersionLabel(n.version), n.tile);
    NodesStayKnown(s.(cache := AfterStore(s.cache, key, reply.items, s.now)), call, index, [Done(n.tile, reply.items)]);
  }

  lemma {:induction false} KnownRun(p: Projection, served: Served, s: Provider, steps: seq<Step>)
    requires NeverUnknown(s) && IsRun(p, served, s, steps) && SetCacheVersion(UNKNOWN) !in steps
    ensures IsRun(p, WithoutUnknown(served), s, steps)
    ensures After(p, WithoutUnknown(served), s, steps) == After(p, served, s, steps)
    ensures NeverUnknown(After(p, served, s, steps))
    decreases |steps|
  {
    hide Next, Enabled, NeverUnknown;
    if steps != [] {
      KnownStep(p, served, s, steps[0]);
      KnownRun(p, served, Next(p, served, s, steps[0]), steps[1..]);
    }
  }

  /**
   A client that is never told the version "unknown" has a truthful cache: at any version, also at none,
   every hit is the answer of the server for the version current now.
   */
  lemma KnownVersionsHitTruthfully(p: Projection, served: Served, steps: seq<Step>)
    requires p.Mercator() && IsRun(p, served, INITIAL, steps) && SetCacheVersion(UNKNOWN) !in steps
    ensures HitsTruthful(p, served, After(p, served, INITIAL, steps))
  {
    hide After, IsRun, TileProvider.Inv, TileBounds, ReadValue;
    var known := WithoutUnknown(served);
    assert NeverUnknown(INITIAL);
    KnownRun(p, served, INITIAL, steps);
    InitialInv(p, known);
    TileProvider.EveryRunKeepsInv(p, known, INITIAL, steps);
    var s := After(p, served, INITIAL, steps);
    forall tile
      ensures HitTruthful(p, served, s, tile)
    {
      CacheServesCurrentVersion(p, known, s, tile);
    }
  }

  /** What frontend/src/map.ts:440-442 sends: a time or a word for its absence, a colon, and a count. */
  function MapVersion(lastIngestAt: string, cafesCount: string): Version {
    Some(lastIngestAt + ":" + cafesCount)
  }

  ghost predicate SendsMapVersions(steps: seq<Step>) {
    forall step :: step in steps && step.SetCacheVersion? ==> exists at, count :: step.version == MapVersion(at, count)
  }

  /** So the map never gets an answer for another version from the cache. */
  lemma MapHitsTruthfully(p: Projection, served: Served, steps: seq<Step>)
    requires p.Mercator() && IsRun(p, served, INITIAL, steps) && SendsMapVersions(steps)
    ensures HitsTruthful(p, served, After(p, served, INITIAL, steps))
  {
    hide IsRun, After, HitsTruthful;
    forall step | step in steps && step.SetCacheVersion?
      ensures step.version != UNKNOWN
    {
      var at, count :| step.version == MapVersion(at, count);
      assert (at + ":" + count)[|at|] == ':' && ':' !in "unknown";
    }
    KnownVersionsHitTruthfully(p, served, steps);
  }

  lemma InitialInv(p: Projection, served: Served)
    ensures TileProvider.Inv(p, served, INITIAL)
  {
  }

  // ---------------------------------------------------------------------------------------
  // Runs that do
  // ---------------------------------------------------------------------------------------

  /** A tile is asked for at one of two versions with the same label, and answered after a change to the other. */
  function LateAnswer(v: Viewport, tile: Tile, cafe: Cafe, later: Version): seq<Step> {
    [GetCafes(v, [tile]), Visit(0, 0), SetCacheVersion(later), Receive(0, 0, Reply([cafe], false))]
  }

  function Fresh(version: Version): Provider {
    Provider(version, [], {}, [], 0)
  }

  lemma LateAnswerIsServed(
      p: Projection, served: Served, v: Viewport, tile: Tile, cafe: Cafe, asked: Version, later: Version)
    requires RootTiles(p, v, [tile]) && cafe.active && InTile(p, tile, cafe.at)
    requires asked != later && VersionLabel(asked) == VersionLabel(later)
    requires served(asked) == {cafe} && served(later) == {}
    ensures IsRun(p, served, Fresh(asked), LateAnswer(v, tile, cafe, later))
    ensures var s := After(p, served, Fresh(asked), LateAnswer(v, tile, cafe, later));
            s.version == later && !HitTruthful(p, served, s, tile)
  {
    hide TileBounds, RootTiles;
    assert Matching(served(asked), TileBounds(p, tile)) == {cafe};
    assert cafe in [cafe] && cafe !in Matching(served(later), TileBounds(p, tile));
    var start, visit := GetCafes(v, [tile]), Visit(0, 0);
    var change, receive := SetCacheVersion(later), Receive(0, 0, Reply([cafe], false));
    var s1 := Next(p, served, Fresh(asked), start);
    assert s1.calls[0].frontier == [Pending(tile, 0)];
    var s2 := Next(p, served, s1, visit);
    assert s2.calls[0].frontier == [InFlight(tile, 0, asked)];
    var s3 := Next(p, served, s2, change);
    assert s3.calls[0].frontier == [InFlight(tile, 0, asked)];
    assert Enabled(p, served, s3, receive);
    var s4 := Next(p, served, s3, receive);
    assert s4.cache == [Entry(TileKey(VersionLabel(asked), tile), TILE_CACHE_TTL_MS, [cafe])];
    hide Next, Enabled;
    OneStepMore(p, served, s3, receive, []);
    OneStepMore(p, served, s2, change, [receive]);
    OneStepMore(p, served, s1, visit, [change, receive]);
    OneStepMore(p, served, Fresh(asked), start, [visit, change, receive]);
    assert [start, visit, change, receive] == [start] + [visit, change, receive];
    assert [visit, change, receive] == [visit] + [change, receive];
    assert [change, receive] == [change] + [receive];
    assert [receive] == [receive] + [];
  }

  /** The middle of tile 512, 512 of zoom 10, and a viewport whose only root tile it is. */
  const MIDDLE_TILE := Tile(10, 512, 512)

  function MiddleView(p: Projection): Viewport {
    Viewport(0.1, p.toLat(512.75 / 1024.0), 0.2, p.toLat(512.25 / 1024.0), 10.0)
  }

  function MiddleCafe(p: Projection): Cafe {
    Cafe(1, Point(0.15, p.toLat(512.5 / 1024.0)), true)
  }

  lemma MiddleViewHasOneTile(p: Projection)
    requires p.Mercator()
    ensures RootTiles(p, MiddleView(p), [MIDDLE_TILE]) && InTile(p, MIDDLE_TILE, MiddleCafe(p).at)
  {
    var v := MiddleView(p);
    assert Pow2(10) == 1024;
    assert RootZoom(p, v) == 10;
    MiddleLatitudes(p);
    MiddleRange(p);
    hide RootRange;
    forall tile
      ensures tile in [MIDDLE_TILE] <==> InRange(RootRange(p, v), tile)
    {
      CanonicalIs(512, 0, 1024);
    }
  }

  lemma MiddleRange(p: Projection)
    requires p.Mercator() && Pow2(10) == 1024
    ensures TileRangeForViewport(p, MiddleView(p), 10) == TileRange(10, 512, 512, 512, 512)
  {
  }

  lemma MiddleLatitudes(p: Projection)
    requires p.Mercator()
    ensures p.toLat(513.0 / 1024.0) <= p.toLat(512.5 / 1024.0) <= p.toLat(512.0 / 1024.0)
  {
    LatitudeOrder(p, p.toLat(513.0 / 1024.0), p.toLat(512.5 / 1024.0));
    LatitudeOrder(p, p.toLat(512.5 / 1024.0), p.toLat(512.0 / 1024.0));
  }

  // ---------------------------------------------------------------------------------------
  // Exactly when
  // ---------------------------------------------------------------------------------------

  lemma {:induction false} LeavesNoneForGood(p: Projection, served: Served, s: Provider, steps: seq<Step>)
    requires IsRun(p, served, s, steps) && SetCacheVersion(None) !in steps && s.version != None
    ensures After(p, served, s, steps).version != None
    decreases |steps|
  {
    hide Enabled, VisitNode, ReceiveReply, WithNodes;
    if steps != [] {
      StepVersion(p, served, s, steps[0]);
      LeavesNoneForGood(p, served, Next(p, served, s, steps[0]), steps[1..]);
    }
  }

  lemma StepVersion(p: Projection, served: Served, s: Provider, step: Step)
    requires Enabled(p, served, s, step)
    ensures Next(p, served, s, step).version == if step.SetCacheVersion? then step.version else s.version
  {
  }

  /** Without a version again after the text "unknown": only if none was sent again. */
  lemma {:induction false} UnknownEndsNone(p: Projection, served: Served, s: Provider, steps: seq<Step>)
    requires IsRun(p, served, s, steps) && SetCacheVersion(None) !in steps && SetCacheVersion(UNKNOWN) in steps
    ensures After(p, served, s, steps).version != None
    decreases |steps|
  {
    hide Enabled, Next;
    StepVersion(p, served, s, steps[0]);
    if steps[0] == SetCacheVersion(UNKNOWN) {
      LeavesNoneForGood(p, served, Next(p, served, s, steps[0]), steps[1..]);
    } else {
      UnknownEndsNone(p, served, Next(p, served, s, steps[0]), steps[1..]);
    }
  }

  /** A run that sends only these versions and ends at version `now` ends with a truthful cache. */
  ghost predicate EndsTruthful(p: Projection, sent: Sent, now: Version, served: Served, steps: seq<Step>) {
    IsRun(p, served, INITIAL, steps) && SendsOnly(sent, steps) && After(p, served, INITIAL, steps).version == now ==>
      HitsTruthful(p, served, After(p, served, INITIAL, steps))
  }

  /** The text "unknown" may be sent, and the version now is that text, or none again. */
  predicate LabelReused(sent: Sent, now: Version) {
    sent(UNKNOWN) && (now == UNKNOWN || (now == None && sent(None)))
  }

  lemma OtherwiseTruthful(p: Projection, sent: Sent, now: Version, served: Served, steps: seq<Step>)
    requires p.Mercator() && !LabelReused(sent, now)
    ensures EndsTruthful(p, sent, now, served, steps)
  {
    hide IsRun, After, TileProvider.Inv, TileBounds, ReadValue, HitsTruthful;
    if IsRun(p, served, INITIAL, steps) && SendsOnly(sent, steps) && After(p, served, INITIAL, steps).version == now {
      if SetCacheVersion(UNKNOWN) !in steps {
        KnownVersionsHitTruthfully(p, served, steps);
      } else {
        if now == None {
          UnknownEndsNone(p, served, INITIAL, steps);
        }
        OtherVersionsHitTruthfully(p, served, steps);
      }
    }
  }

  lemma OtherVersionsHitTruthfully(p: Projection, served: Served, steps: seq<Step>)
    requires p.Mercator() && IsRun(p, served, INITIAL, steps)
    requires After(p, served, INITIAL, steps).version !in {None, UNKNOWN}
    ensures HitsTruthful(p, served, After(p, served, INITIAL, steps))
  {
    hide IsRun, After, TileProvider.Inv, TileBounds, ReadValue;
    InitialInv(p, served);
    TileProvider.EveryRunKeepsInv(p, served, INITIAL, steps);
    var s := After(p, served, INITIAL, steps);
    forall tile
      ensures HitTruthful(p, served, s, tile)
    {
      CacheServesCurrentVersion(p, served, s, tile);
    }
  }

  /** The catalogues of the counterexample: one cafe at one version, none at any other. */
  function OnlyAt(asked: Version, cafe: Cafe): Served {
    v => if v == asked then {cafe} else {}
  }

  /** A run that ends at version `now` with an answer given for the other version of the same label. */
  function ReusingRun(p: Projection, now: Version): seq<Step> {
    var late := LateAnswer(MiddleView(p), MIDDLE_TILE, MiddleCafe(p), now);
    if now == UNKNOWN then late else [SetCacheVersion(UNKNOWN)] + late
  }

  lemma ReusedIsUntruthful(p: Projection, sent: Sent, now: Version)
    requires p.Mercator() && LabelReused(sent, now)
    ensures !EndsTruthful(p, sent, now, OnlyAt(if now == UNKNOWN then None else UNKNOWN, MiddleCafe(p)),
                          ReusingRun(p, now))
  {
    hide IsRun, After, RootTiles, InTile, MiddleView, HitTruthful;
    var asked := if now == UNKNOWN then None else UNKNOWN;
    var cafe := MiddleCafe(p);
    var served := OnlyAt(asked, cafe);
    var late := LateAnswer(MiddleView(p), MIDDLE_TILE, cafe, now);
    MiddleViewHasOneTile(p);
    LateAnswerIsServed(p, served, MiddleView(p), MIDDLE_TILE, cafe, asked, now);
    if now != UNKNOWN {
      assert Next(p, served, INITIAL, SetCacheVersion(UNKNOWN)) == Fresh(UNKNOWN);
      OneStepMore(p, served, INITIAL, SetCacheVersion(UNKNOWN), late);
    }
  }

  /**
   Whatever the catalogues and the interleaving, the cache is truthful at a version if and only if the label of
   that version cannot have been used for the other version that has it.
   */
  lemma HitsAreTruthfulExactly(p: Projection, sent: Sent, now: Version)
    requires p.Mercator()
    ensures (forall served, steps :: EndsTruthful(p, sent, now, served, steps)) <==> !LabelReused(sent, now)
  {
    hide EndsTruthful, LabelReused;
    if LabelReused(sent, now) {
      ReusedIsUntruthful(p, sent, now);
    } else {
      forall served, steps
        ensures EndsTruthful(p, sent, now, served, steps)
      {
        OtherwiseTruthful(p, sent, now, served, steps);
      }
    }
  }

  /** A client is safe at every version if and only if it is never told the version "unknown". */
  lemma EveryVersionIsTruthfulExactly(p: Projection, sent: Sent)
    requires p.Mercator()
    ensures (forall now, served, steps :: EndsTruthful(p, sent, now, served, steps)) <==> !sent(UNKNOWN)
  {
    hide EndsTruthful;
    if sent(UNKNOWN) {
      ReusedIsUntruthful(p, sent, UNKNOWN);
    } else {
      forall now, served, steps
        ensures EndsTruthful(p, sent, now, served, steps)
      {
        OtherwiseTruthful(p, sent, now, served, steps);
      }
    }
  }
}
