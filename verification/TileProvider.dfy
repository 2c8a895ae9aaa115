/**
 `CachedApiCafeProvider.getCafes` and `getTileFeatures` (frontend/src/cafe-provider.ts) as
 a machine whose steps are the synchronous sections of the JavaScript: starting a call,
 visiting one tile up to its first `await`, receiving one reply, failing, and changing the
 data version.  Any number of calls are interleaved.

 The frontier of a call is the sequence of its tiles in flattening order: splitting a tile
 replaces it by its four children in place, which is what flattening nested groups does.
 */
module TileProvider {
  import opened CafeSummaries
  import opened Outcomes
  import opened TileCache
  import opened TileGeometry

  const MAX_VIEWPORT_SPLIT_DEPTH := 6
  const DEEPEST_SPLIT_ZOOM := 20

  /** The data version of a request; none is sent as no parameter and cached as "unknown". */
  type Version = Option<string>

  function VersionLabel(version: Version): string {
    match version
    case None => "unknown"
    case Some(text) => text
  }

  /** One tile of a call. */
  datatype Node =
    | Pending(tile: Tile, depth: nat)
    | InFlight(tile: Tile, depth: nat, version: Version)
    | Done(tile: Tile, features: seq<Cafe>)
    | Failed(tile: Tile)

  predicate Unfinished(n: Node) {
    n.Pending? || n.InFlight?
  }

  /** `labels` is history: the labels of the versions current while the call was unfinished. */
  datatype Call = Call(viewport: Viewport, roots: seq<Tile>, frontier: seq<Node>, labels: set<string>)

  datatype Provider = Provider(version: Version, cache: Entries, splitTiles: set<Tile>, calls: seq<Call>, now: int)

  const INITIAL := Provider(None, [], {}, [], 0)

  datatype Step =
    | GetCafes(viewport: Viewport, roots: seq<Tile>)
    | Visit(call: nat, index: nat)
    | Receive(call: nat, index: nat, reply: Reply)
    | Reject(call: nat, index: nat)
    | SetCacheVersion(version: Version)
    | Tick(now: int)

  /** What the server answers to a request that names this version. */
  type Served = Version -> Catalogue

  function Children(tile: Tile, depth: nat): seq<Node> {
    var kids := TileChildren(tile);
    [Pending(kids[0], depth), Pending(kids[1], depth), Pending(kids[2], depth), Pending(kids[3], depth)]
  }

  function RootNodes(roots: seq<Tile>): (nodes: seq<Node>)
    ensures |nodes| == |roots| && forall i :: 0 <= i < |roots| ==> nodes[i] == Pending(roots[i], 0)
  {
    seq(|roots|, i requires 0 <= i < |roots| => Pending(roots[i], 0))
  }

  function Replace(nodes: seq<Node>, index: nat, put: seq<Node>): seq<Node>
    requires index < |nodes|
  {
    nodes[..index] + put + nodes[index + 1..]
  }

  predicate HasNode(s: Provider, call: nat, index: nat) {
    call < |s.calls| && index < |s.calls[call].frontier|
  }

  function WithNodes(s: Provider, call: nat, index: nat, put: seq<Node>): Provider
    requires HasNode(s, call, index)
  {
    var c := s.calls[call];
    s.(calls := s.calls[call := c.(frontier := Replace(c.frontier, index, put))])
  }

  /** The section of `getTileFeatures` up to its first await. */
  function VisitNode(s: Provider, call: nat, index: nat): Provider
    requires HasNode(s, call, index) && s.calls[call].frontier[index].Pending?
  {
    var n := s.calls[call].frontier[index];
    var key := TileKey(VersionLabel(s.version), n.tile);
    var read := s.(cache := AfterRead(s.cache, key, s.now));
    match ReadValue(s.cache, key, s.now)
    case Some(features) => WithNodes(read, call, index, [Done(n.tile, features)])
    case None =>
      if n.tile in s.splitTiles then WithNodes(read, call, index, Children(n.tile, n.depth + 1))
      else WithNodes(read, call, index, [InFlight(n.tile, n.depth, s.version)])
  }

  /** The section after the reply has arrived. */
  function ReceiveReply(s: Provider, call: nat, index: nat, reply: Reply): Provider
    requires HasNode(s, call, index) && s.calls[call].frontier[index].InFlight?
  {
    var n := s.calls[call].frontier[index];
    if reply.truncated then
      if n.depth >= MAX_VIEWPORT_SPLIT_DEPTH then WithNodes(s, call, index, [Failed(n.tile)])
      else WithNodes(s.(splitTiles := s.splitTiles + {n.tile}), call, index, Children(n.tile, n.depth + 1))
    else
      var key := TileKey(VersionLabel(n.version), n.tile);
      WithNodes(s.(cache := AfterStore(s.cache, key, reply.items, s.now)), call, index, [Done(n.tile, reply.items)])
  }

  predicate Finished(c: Call) {
    forall n :: n in c.frontier ==> !Unfinished(n)
  }

  function ChangeVersion(s: Provider, version: Version): Provider {
    if s.version == version then s
    else
      var seen := seq(|s.calls|, i requires 0 <= i < |s.calls| =>
                        if Finished(s.calls[i]) then s.calls[i]
                        else s.calls[i].(labels := s.calls[i].labels + {VersionLabel(version)}));
      Provider(version, [], {}, seen, s.now)
  }

  ghost predicate Enabled(p: Projection, served: Served, s: Provider, step: Step) {
    match step
    case GetCafes(viewport, roots) => RootTiles(p, viewport, roots)
    case Visit(call, index) => HasNode(s, call, index) && s.calls[call].frontier[index].Pending?
    case Receive(call, index, reply) =>
      && HasNode(s, call, index) && s.calls[call].frontier[index].InFlight?
      && var n := s.calls[call].frontier[index];
         IsReply(served(n.version), TileBounds(p, n.tile), reply)
    case Reject(call, index) => HasNode(s, call, index) && Unfinished(s.calls[call].frontier[index])
    case SetCacheVersion(_) => true
    case Tick(_) => true
  }

  ghost function Next(p: Projection, served: Served, s: Provider, step: Step): Provider
    requires Enabled(p, served, s, step)
  {
    match step
    case GetCafes(viewport, roots) =>
      s.(calls := s.calls + [Call(viewport, roots, RootNodes(roots), {VersionLabel(s.version)})])
    case Visit(call, index) => VisitNode(s, call, index)
    case Receive(call, index, reply) => ReceiveReply(s, call, index, reply)
    case Reject(call, index) => WithNodes(s, call, index, [Failed(s.calls[call].frontier[index].tile)])
    case SetCacheVersion(version) => ChangeVersion(s, version)
    case Tick(now) => s.(now := now)
  }

  ghost predicate IsRun(p: Projection, served: Served, s: Provider, steps: seq<Step>)
    decreases |steps|
  {
    steps == [] || (Enabled(p, served, s, steps[0]) && IsRun(p, served, Next(p, served, s, steps[0]), steps[1..]))
  }

  ghost function After(p: Projection, served: Served, s: Provider, steps: seq<Step>): Provider
    requires IsRun(p, served, s, steps)
    decreases |steps|
  {
    if steps == [] then s else After(p, served, Next(p, served, s, steps[0]), steps[1..])
  }

  // ---------------------------------------------------------------------------------------
  // The result of a call
  // ---------------------------------------------------------------------------------------

  function Gather(nodes: seq<Node>): seq<Cafe> {
    if nodes == [] then []
    else (if nodes[0].Done? then nodes[0].features else []) + Gather(nodes[1..])
  }

  function FilterInside(v: Viewport, features: seq<Cafe>): seq<Cafe> {
    if features == [] then []
    else (if InsideViewport(v, features[0].at) then [features[0]] else []) + FilterInside(v, features[1..])
  }

  /** `Map.set` keyed by id: a repeated id keeps its place and takes the new value. */
  function Put(kept: seq<Cafe>, c: Cafe): seq<Cafe> {
    if kept == [] then [c] else if kept[0].id == c.id then [c] + kept[1..] else [kept[0]] + Put(kept[1..], c)
  }

  function Deduplicate(features: seq<Cafe>): seq<Cafe> {
    if features == [] then []
    else Put(Deduplicate(features[..|features| - 1]), features[|features| - 1])
  }

  function CallResult(c: Call): seq<Cafe> {
    Deduplicate(FilterInside(c.viewport, Gather(c.frontier)))
  }

  /** The filtering and deduplicating loop at the end of `getCafes`. */
  method DeduplicateInViewport(v: Viewport, features: seq<Cafe>) returns (result: seq<Cafe>)
    ensures result == Deduplicate(FilterInside(v, features))
  {
    result := [];
    var inside := FilterInside(v, features);
    var i := 0;
    while i < |inside|
      invariant 0 <= i <= |inside|
      invariant result == Deduplicate(inside[..i])
    {
      assert inside[..i + 1][..i] == inside[..i];
      result := Put(result, inside[i]);
      i := i + 1;
    }
    assert inside[..i] == inside;
  }

  // ---------------------------------------------------------------------------------------
  // What every reachable state keeps
  // ---------------------------------------------------------------------------------------

  /** The features are the full answer for the tile under some version with this label. */
  ghost predicate Sound(p: Projection, served: Served, versionLabel: string, tile: Tile, features: seq<Cafe>) {
    exists v: Version :: VersionLabel(v) == versionLabel
                         && Lists(features, Matching(served(v), TileBounds(p, tile)))
  }

  ghost predicate CacheOk(p: Projection, served: Served, cache: Entries) {
    && DistinctKeys(cache)
    && |cache| <= MAX_CACHED_TILES
    && (forall e :: e in cache ==> Sound(p, served, e.key.versionLabel, e.key.tile, e.features))
  }

  ghost predicate SplitsOk(splitTiles: set<Tile>) {
    forall t :: t in splitTiles ==> ValidTile(t) && t.z <= DEEPEST_SPLIT_ZOOM
  }

  ghost predicate NodeOk(p: Projection, served: Served, rootZoom: nat, labels: set<string>, n: Node) {
    && ValidTile(n.tile) && n.tile.z <= DEEPEST_SPLIT_ZOOM + 1
    && match n
       case Pending(tile, depth) => tile.z == rootZoom + depth
       case InFlight(tile, depth, version) => tile.z == rootZoom + depth && VersionLabel(version) in labels
       case Done(tile, features) => exists l :: l in labels && Sound(p, served, l, tile, features)
       case Failed(_) => true
  }

  ghost predicate InSome(p: Projection, nodes: seq<Node>, at: Point) {
    exists n :: n in nodes && InTile(p, n.tile, at)
  }

  /** The tiles of the frontier cover exactly what the root tiles cover. */
  ghost predicate SameRegion(p: Projection, v: Viewport, nodes: seq<Node>) {
    forall at :: InWorld(p, at) ==> (InSome(p, nodes, at) <==> Covered(p, v, at))
  }

  ghost predicate CallOk(p: Projection, served: Served, version: Version, c: Call) {
    && (forall n :: n in c.frontier ==> NodeOk(p, served, RootZoom(p, c.viewport), c.labels, n))
    && SameRegion(p, c.viewport, c.frontier)
    && (!Finished(c) ==> VersionLabel(version) in c.labels)
  }

  ghost predicate Inv(p: Projection, served: Served, s: Provider) {
    && CacheOk(p, served, s.cache)
    && SplitsOk(s.splitTiles)
    && (forall i :: 0 <= i < |s.calls| ==> CallOk(p, served, s.version, s.calls[i]))
  }

  lemma MembersOfReplace(nodes: seq<Node>, index: nat, put: seq<Node>)
    requires index < |nodes|
    ensures forall n :: n in Replace(nodes, index, put) <==>
                        n in put || n in nodes[..index] || n in nodes[index + 1..]
    ensures forall n :: n in nodes <==> n == nodes[index] || n in nodes[..index] || n in nodes[index + 1..]
  {
    assert nodes == nodes[..index] + [nodes[index]] + nodes[index + 1..];
  }

  /** Replacing one tile by tiles of the same region keeps the region of the frontier. */
  lemma ReplaceKeepsRegion(p: Projection, v: Viewport, nodes: seq<Node>, index: nat, put: seq<Node>)
    requires index < |nodes| && SameRegion(p, v, nodes)
    requires forall at :: InWorld(p, at) ==> (InSome(p, put, at) <==> InTile(p, nodes[index].tile, at))
    ensures SameRegion(p, v, Replace(nodes, index, put))
  {
    hide InTile, Covered, Replace;
    MembersOfReplace(nodes, index, put);
    forall at | InWorld(p, at)
      ensures InSome(p, Replace(nodes, index, put), at) <==> InSome(p, nodes, at)
    {
      assert InSome(p, put, at) <==> InTile(p, nodes[index].tile, at);
    }
  }

  lemma SingleRegion(p: Projection, n: Node, at: Point)
    ensures InSome(p, [n], at) <==> InTile(p, n.tile, at)
  {
    hide InTile;
    assert n in [n];
  }

  lemma ChildrenRegion(p: Projection, tile: Tile, depth: nat)
    requires p.Mercator() && ValidTile(tile)
    ensures forall at :: InWorld(p, at) ==> (InSome(p, Children(tile, depth), at) <==> InTile(p, tile, at))
  {
    hide InTile;
    var kids, nodes := TileChildren(tile), Children(tile, depth);
    forall at | InWorld(p, at)
      ensures InSome(p, nodes, at) <==> InTile(p, tile, at)
    {
      ChildrenCoverParent(p, tile, at);
      assert forall k :: 0 <= k < 4 ==> nodes[k] in nodes && nodes[k].tile == kids[k];
      assert forall n :: n in nodes ==> exists k :: 0 <= k < 4 && nodes[k] == n;
    }
  }

  /** A step on one tile keeps its call and leaves the other calls alone. */
  lemma StepOnNodeKeepsCalls(p: Projection, served: Served, s: Provider, call: nat, index: nat, put: seq<Node>)
    requires Inv(p, served, s) && HasNode(s, call, index)
    requires Unfinished(s.calls[call].frontier[index])
    requires var c := s.calls[call];
             && (forall n :: n in put ==> NodeOk(p, served, RootZoom(p, c.viewport), c.labels, n))
             && (forall at :: InWorld(p, at) ==>
                                (InSome(p, put, at) <==> InTile(p, c.frontier[index].tile, at)))
    ensures var t := WithNodes(s, call, index, put);
            forall i :: 0 <= i < |t.calls| ==> CallOk(p, served, s.version, t.calls[i])
  {
    hide NodeOk, SameRegion, InSome, InTile, RootZoom;
    var c := s.calls[call];
    MembersOfReplace(c.frontier, index, put);
    ReplaceKeepsRegion(p, c.viewport, c.frontier, index, put);
    assert c.frontier[index] in c.frontier;
  }

  lemma ChildrenOk(p: Projection, served: Served, rootZoom: nat, labels: set<string>, n: Node)
    requires NodeOk(p, served, rootZoom, labels, n) && Unfinished(n) && n.tile.z <= DEEPEST_SPLIT_ZOOM
    ensures forall m :: m in Children(n.tile, n.depth + 1) ==> NodeOk(p, served, rootZoom, labels, m)
    ensures ValidTile(n.tile)
  {
    ChildrenAreTiles(n.tile);
  }

  /** What the invariant says about one unfinished tile. */
  lemma UnfinishedNode(p: Projection, served: Served, s: Provider, call: nat, index: nat)
    requires Inv(p, served, s) && HasNode(s, call, index) && Unfinished(s.calls[call].frontier[index])
    ensures var c := s.calls[call];
            && NodeOk(p, served, RootZoom(p, c.viewport), c.labels, c.frontier[index])
            && VersionLabel(s.version) in c.labels
  {
    hide InTile, RootZoom, SameRegion, CacheOk, SplitsOk, NodeOk;
    var c := s.calls[call];
    assert c.frontier[index] in c.frontier;
    assert CallOk(p, served, s.version, c);
  }

  /** The tile of an unfinished node may go in flight, fail, or be answered soundly. */
  lemma SuccessorsOk(p: Projection, served: Served, rootZoom: nat, labels: set<string>, n: Node, version: Version)
    requires NodeOk(p, served, rootZoom, labels, n) && Unfinished(n)
    ensures NodeOk(p, served, rootZoom, labels, Failed(n.tile))
    ensures VersionLabel(version) in labels ==>
              && NodeOk(p, served, rootZoom, labels, InFlight(n.tile, n.depth, version))
              && (forall features :: Sound(p, served, VersionLabel(version), n.tile, features) ==>
                                       NodeOk(p, served, rootZoom, labels, Done(n.tile, features)))
    ensures n.InFlight? ==> VersionLabel(n.version) in labels
  {
    hide Sound, ValidTile;
  }

  lemma ReplaceByOne(p: Projection, served: Served, s: Provider, call: nat, index: nat, m: Node)
    requires Inv(p, served, s) && HasNode(s, call, index)
    requires Unfinished(s.calls[call].frontier[index]) && m.tile == s.calls[call].frontier[index].tile
    requires NodeOk(p, served, RootZoom(p, s.calls[call].viewport), s.calls[call].labels, m)
    ensures Inv(p, served, WithNodes(s, call, index, [m]))
  {
    hide InTile, RootZoom, NodeOk, SameRegion, CacheOk, SplitsOk;
    forall at | InWorld(p, at)
      ensures InSome(p, [m], at) <==> InTile(p, s.calls[call].frontier[index].tile, at)
    {
      SingleRegion(p, m, at);
    }
    StepOnNodeKeepsCalls(p, served, s, call, index, [m]);
  }

  lemma ReplaceByChildren(p: Projection, served: Served, s: Provider, call: nat, index: nat)
    requires p.Mercator() && Inv(p, served, s) && HasNode(s, call, index)
    requires Unfinished(s.calls[call].frontier[index])
    requires s.calls[call].frontier[index].tile.z <= DEEPEST_SPLIT_ZOOM
    ensures var n := s.calls[call].frontier[index];
            Inv(p, served, WithNodes(s, call, index, Children(n.tile, n.depth + 1)))
  {
    hide InTile, RootZoom, SameRegion, Children, CacheOk, SplitsOk, InSome, NodeOk, ValidTile, WithNodes;
    var c := s.calls[call];
    var n := c.frontier[index];
    UnfinishedNode(p, served, s, call, index);
    ChildrenOk(p, served, RootZoom(p, c.viewport), c.labels, n);
    ChildrenRegion(p, n.tile, n.depth + 1);
    StepOnNodeKeepsCalls(p, served, s, call, index, Children(n.tile, n.depth + 1));
    OnlyCallsChange(s, call, index, Children(n.tile, n.depth + 1));
  }

  lemma OnlyCallsChange(s: Provider, call: nat, index: nat, put: seq<Node>)
    requires HasNode(s, call, index)
    ensures var t := WithNodes(s, call, index, put);
            t.version == s.version && t.cache == s.cache && t.splitTiles == s.splitTiles
  {
  }

  /** The part of a visit that touches the cache. */
  function Read(s: Provider, tile: Tile): Provider {
    s.(cache := AfterRead(s.cache, TileKey(VersionLabel(s.version), tile), s.now))
  }

  lemma ReadKeepsInv(p: Projection, served: Served, s: Provider, tile: Tile)
    requires Inv(p, served, s)
    ensures Inv(p, served, Read(s, tile))
    ensures var found := ReadValue(s.cache, TileKey(VersionLabel(s.version), tile), s.now);
            found.Some? ==> Sound(p, served, VersionLabel(s.version), tile, found.value)
  {
    hide AfterRead, ReadValue, CallOk, Sound, SplitsOk;
    ReadServesAnItem(s.cache, TileKey(VersionLabel(s.version), tile), s.now);
  }

  lemma VisitKeepsInv(p: Projection, served: Served, s: Provider, call: nat, index: nat)
    requires p.Mercator() && Inv(p, served, s) && Enabled(p, served, s, Visit(call, index))
    ensures Inv(p, served, VisitNode(s, call, index))
  {
    hide Inv, AfterRead, ReadValue, RootZoom, CallOk, Sound, Children, WithNodes, ValidTile, CacheOk, NodeOk;
    var c := s.calls[call];
    var n := c.frontier[index];
    UnfinishedNode(p, served, s, call, index);
    SuccessorsOk(p, served, RootZoom(p, c.viewport), c.labels, n, s.version);
    ReadKeepsInv(p, served, s, n.tile);
    match ReadValue(s.cache, TileKey(VersionLabel(s.version), n.tile), s.now)
    case Some(features) =>
      ReplaceByOne(p, served, Read(s, n.tile), call, index, Done(n.tile, features));
    case None =>
      if n.tile in s.splitTiles {
        RememberedSplit(p, served, s, n.tile);
        ReplaceByChildren(p, served, Read(s, n.tile), call, index);
      } else {
        ReplaceByOne(p, served, Read(s, n.tile), call, index, InFlight(n.tile, n.depth, s.version));
      }
  }

  lemma RememberedSplit(p: Projection, served: Served, s: Provider, tile: Tile)
    requires Inv(p, served, s) && tile in s.splitTiles
    ensures tile.z <= DEEPEST_SPLIT_ZOOM
  {
    hide CallOk, CacheOk;
  }

  lemma ReceiveKeepsInv(p: Projection, served: Served, s: Provider, call: nat, index: nat, reply: Reply)
    requires p.Mercator() && Inv(p, served, s) && Enabled(p, served, s, Receive(call, index, reply))
    ensures Inv(p, served, ReceiveReply(s, call, index, reply))
  {
    hide Inv, RootZoom, WithNodes, NodeOk, Children, AfterStore, Matching, TileBounds;
    var c := s.calls[call];
    var n := c.frontier[index];
    UnfinishedNode(p, served, s, call, index);
    SuccessorsOk(p, served, RootZoom(p, c.viewport), c.labels, n, n.version);
    if !reply.truncated {
      ItemsKeepInv(p, served, s, call, index, reply.items);
    } else if n.depth >= MAX_VIEWPORT_SPLIT_DEPTH {
      ReplaceByOne(p, served, s, call, index, Failed(n.tile));
    } else {
      SplitKeepsInv(p, served, s, call, index);
    }
  }

  /** A split happens at most five levels below a root, so never below zoom twenty. */
  lemma SplitZoomBound(p: Projection, served: Served, v: Viewport, labels: set<string>, n: Node)
    requires NodeOk(p, served, RootZoom(p, v), labels, n) && n.InFlight? && n.depth < MAX_VIEWPORT_SPLIT_DEPTH
    ensures ValidTile(n.tile) && n.tile.z <= DEEPEST_SPLIT_ZOOM
  {
    RootZoomIsDeepestThatFits(p, v);
    hide RootZoom, RootRange, TileRangeForViewport, ValidTile, Sound;
  }

  lemma RememberSplit(p: Projection, served: Served, s: Provider, tile: Tile)
    requires Inv(p, served, s) && ValidTile(tile) && tile.z <= DEEPEST_SPLIT_ZOOM
    ensures Inv(p, served, s.(splitTiles := s.splitTiles + {tile}))
  {
    hide CallOk, CacheOk, ValidTile;
  }

  lemma SplitKeepsInv(p: Projection, served: Served, s: Provider, call: nat, index: nat)
    requires p.Mercator() && Inv(p, served, s) && HasNode(s, call, index)
    requires s.calls[call].frontier[index].InFlight?
    requires s.calls[call].frontier[index].depth < MAX_VIEWPORT_SPLIT_DEPTH
    ensures var n := s.calls[call].frontier[index];
            var split := s.(splitTiles := s.splitTiles + {n.tile});
            Inv(p, served, WithNodes(split, call, index, Children(n.tile, n.depth + 1)))
  {
    hide Inv, RootZoom, WithNodes, NodeOk, Children, ValidTile;
    var c := s.calls[call];
    var n := c.frontier[index];
    UnfinishedNode(p, served, s, call, index);
    SplitZoomBound(p, served, c.viewport, c.labels, n);
    RememberSplit(p, served, s, n.tile);
    ReplaceByChildren(p, served, s.(splitTiles := s.splitTiles + {n.tile}), call, index);
  }

  lemma ItemsKeepInv(p: Projection, served: Served, s: Provider, call: nat, index: nat, items: seq<Cafe>)
    requires Inv(p, served, s) && HasNode(s, call, index)
    requires s.calls[call].frontier[index].InFlight?
    requires var n := s.calls[call].frontier[index];
             Lists(items, Matching(served(n.version), TileBounds(p, n.tile)))
    ensures var n := s.calls[call].frontier[index];
            var key := TileKey(VersionLabel(n.version), n.tile);
            var stored := s.(cache := AfterStore(s.cache, key, items, s.now));
            Inv(p, served, WithNodes(stored, call, index, [Done(n.tile, items)]))
  {
    var c := s.calls[call];
    var n := c.frontier[index];
    var key := TileKey(VersionLabel(n.version), n.tile);
    var stored := s.(cache := AfterStore(s.cache, key, items, s.now));
    UnfinishedNode(p, served, s, call, index);
    SuccessorsOk(p, served, RootZoom(p, c.viewport), c.labels, n, n.version);
    assert Sound(p, served, VersionLabel(n.version), n.tile, items);
    StoreAddsAnItem(s.cache, key, items, s.now);
    hide RootZoom, CallOk, WithNodes, AfterStore, Sound, ValidTile, DistinctKeys, SplitsOk;
    assert CacheOk(p, served, stored.cache);
    hide CacheOk, NodeOk;
    ReplaceByOne(p, served, stored, call, index, Done(n.tile, items));
  }

  lemma NewCallOk(p: Projection, served: Served, version: Version, v: Viewport, roots: seq<Tile>)
    requires p.Mercator() && RootTiles(p, v, roots)
    ensures CallOk(p, served, version, Call(v, roots, RootNodes(roots), {VersionLabel(version)}))
  {
    var nodes := RootNodes(roots);
    RootZoomIsDeepestThatFits(p, v);
    RootRangeRows(p, v);
    hide InTile, RootZoom, Pow2, RootRange;
    forall n | n in nodes
      ensures ValidTile(n.tile) && n.tile.z == RootZoom(p, v)
    {
      assert n.tile in roots;
    }
    forall at | InWorld(p, at)
      ensures InSome(p, nodes, at) <==> Covered(p, v, at)
    {
      if n :| n in nodes && InTile(p, n.tile, at) {
        assert n.tile in roots;
      }
      if tile :| InRange(RootRange(p, v), tile) && InTile(p, tile, at) {
        assert tile in roots;
        var i :| 0 <= i < |roots| && roots[i] == tile;
        assert nodes[i] in nodes;
      }
    }
  }

  lemma ChangeVersionKeepsInv(p: Projection, served: Served, s: Provider, version: Version)
    requires Inv(p, served, s)
    ensures Inv(p, served, ChangeVersion(s, version))
  {
    hide InTile, RootZoom, SameRegion, Sound;
    if s.version != version {
      var t := ChangeVersion(s, version);
      forall i | 0 <= i < |t.calls|
        ensures CallOk(p, served, version, t.calls[i])
      {
        assert CallOk(p, served, s.version, s.calls[i]);
      }
    }
  }

  lemma NextKeepsInv(p: Projection, served: Served, s: Provider, step: Step)
    requires p.Mercator() && Inv(p, served, s) && Enabled(p, served, s, step)
    ensures Inv(p, served, Next(p, served, s, step))
  {
    hide CallOk, InTile, RootZoom, SameRegion, Sound, VisitNode, ReceiveReply, ChangeVersion, RootTiles;
    match step
    case GetCafes(viewport, roots) => NewCallOk(p, served, s.version, viewport, roots);
    case Visit(call, index) => VisitKeepsInv(p, served, s, call, index);
    case Receive(call, index, reply) => ReceiveKeepsInv(p, served, s, call, index, reply);
    case Reject(call, index) => RejectKeepsInv(p, served, s, call, index);
    case SetCacheVersion(version) => ChangeVersionKeepsInv(p, served, s, version);
    case Tick(now) =>
  }

  lemma RejectKeepsInv(p: Projection, served: Served, s: Provider, call: nat, index: nat)
    requires Inv(p, served, s) && HasNode(s, call, index) && Unfinished(s.calls[call].frontier[index])
    ensures Inv(p, served, WithNodes(s, call, index, [Failed(s.calls[call].frontier[index].tile)]))
  {
    hide InTile, RootZoom, SameRegion, Sound;
    assert s.calls[call].frontier[index] in s.calls[call].frontier;
    ReplaceByOne(p, served, s, call, index, Failed(s.calls[call].frontier[index].tile));
  }

  /** Every interleaving of calls, replies, failures and version changes keeps the invariant. */
  lemma {:induction false} EveryRunKeepsInv(p: Projection, served: Served, s: Provider, steps: seq<Step>)
    requires p.Mercator() && Inv(p, served, s) && IsRun(p, served, s, steps)
    ensures Inv(p, served, After(p, served, s, steps))
    decreases |steps|
  {
    if steps == [] {
    } else {
      NextKeepsInv(p, served, s, steps[0]);
      EveryRunKeepsInv(p, served, Next(p, served, s, steps[0]), steps[1..]);
    }
  }

  // ---------------------------------------------------------------------------------------
  // The result of a call that returns
  // ---------------------------------------------------------------------------------------

  /** `getCafes` returns without error: every tile was answered. */
  predicate Returned(c: Call) {
    forall n :: n in c.frontier ==> n.Done?
  }

  ghost predicate DistinctIds(cafes: seq<Cafe>) {
    forall i, j :: 0 <= i < j < |cafes| ==> cafes[i].id != cafes[j].id
  }

  ghost predicate SameIdSameCafe(cafes: seq<Cafe>) {
    forall c, d :: c in cafes && d in cafes && c.id == d.id ==> c == d
  }

  lemma {:induction false} GatherMembers(nodes: seq<Node>, c: Cafe)
    ensures c in Gather(nodes) <==> exists n :: n in nodes && n.Done? && c in n.features
  {
    if nodes == [] {
    } else {
      assert nodes == [nodes[0]] + nodes[1..];
      GatherMembers(nodes[1..], c);
    }
  }

  lemma {:induction false} FilterMembers(v: Viewport, features: seq<Cafe>, c: Cafe)
    ensures c in FilterInside(v, features) <==> c in features && InsideViewport(v, c.at)
  {
    if features == [] {
    } else {
      assert features == [features[0]] + features[1..];
      FilterMembers(v, features[1..], c);
    }
  }

  lemma {:induction false} PutKeepsDistinct(kept: seq<Cafe>, c: Cafe)
    requires DistinctIds(kept)
    ensures DistinctIds(Put(kept, c))
    ensures forall d :: d in Put(kept, c) <==> d == c || (d in kept && d.id != c.id)
  {
    if kept == [] {
    } else {
      var rest := kept[1..];
      assert kept == [kept[0]] + rest;
      forall d | d in rest
        ensures d.id != kept[0].id
      {
        var i :| 0 <= i < |rest| && rest[i] == d;
        assert kept[i + 1] == d;
      }
      PutKeepsDistinct(rest, c);
      if kept[0].id != c.id {
        PrependDistinct(kept[0], Put(rest, c));
      } else {
        PrependDistinct(c, rest);
      }
    }
  }

  lemma PrependDistinct(c: Cafe, cafes: seq<Cafe>)
    requires DistinctIds(cafes) && forall d :: d in cafes ==> d.id != c.id
    ensures DistinctIds([c] + cafes)
  {
    assert forall i :: 0 <= i < |cafes| ==> cafes[i] in cafes;
  }

  /** Each cafe once: deduplication by id loses no cafe when an id names one cafe. */
  lemma {:induction false} DeduplicateKeepsEachOnce(features: seq<Cafe>)
    ensures DistinctIds(Deduplicate(features))
    ensures forall c :: c in Deduplicate(features) ==> c in features
    ensures SameIdSameCafe(features) ==> forall c :: c in features ==> c in Deduplicate(features)
  {
    if features == [] {
    } else {
      var before, last := features[..|features| - 1], features[|features| - 1];
      assert features == before + [last];
      DeduplicateKeepsEachOnce(before);
      PutKeepsDistinct(Deduplicate(before), last);
    }
  }

  /** Only points of the world square lie in tiles. */
  lemma TilesStayInWorld(p: Projection, tile: Tile, at: Point)
    requires p.Mercator() && ValidTile(tile) && InTile(p, tile, at)
    ensures InWorld(p, at)
  {
    var n := Pow2(tile.z);
    ScaleFraction(tile.x, n);
    ScaleFraction(tile.x + 1, n);
    ScaleFraction(tile.y, n);
    ScaleFraction(tile.y + 1, n);
    var top, bottom := tile.y as real / n as real, (tile.y + 1) as real / n as real;
    LatitudeOrder(p, p.toLat(top), p.toLat(0.0));
    LatitudeOrder(p, p.toLat(1.0), p.toLat(bottom));
  }

  /** A finished tile holds exactly the active cafes of the catalogue inside it. */
  lemma DoneTileIsExact(p: Projection, served: Served, c: Call, cafes: Catalogue, n: Node, k: Cafe)
    requires NodeOk(p, served, RootZoom(p, c.viewport), c.labels, n) && n.Done?
    requires forall v: Version :: VersionLabel(v) in c.labels ==> served(v) == cafes
    ensures k in n.features <==> k in cafes && k.active && InTile(p, n.tile, k.at)
  {
    hide RootZoom, ValidTile, TileBounds, InBox, VersionLabel;
    var l :| l in c.labels && Sound(p, served, l, n.tile, n.features);
    var v: Version :| VersionLabel(v) == l && Lists(n.features, Matching(served(v), TileBounds(p, n.tile)));
  }

  /**
   A call that returns, while every version current during it was answered from one
   catalogue, holds exactly the active cafes of that catalogue that are inside the viewport
   and on one of its root tiles, each once.
   */
  lemma ReturnedCallIsExact(p: Projection, served: Served, s: Provider, call: nat, cafes: Catalogue)
    requires p.Mercator() && Inv(p, served, s) && call < |s.calls| && Returned(s.calls[call])
    requires KeyedById(cafes)
    requires forall v: Version :: VersionLabel(v) in s.calls[call].labels ==> served(v) == cafes
    ensures var c := s.calls[call];
            && DistinctIds(CallResult(c))
            && (forall k :: k in CallResult(c) <==>
                            && k in cafes && k.active && InsideViewport(c.viewport, k.at)
                            && Covered(p, c.viewport, k.at))
  {
    var c := s.calls[call];
    var all := Gather(c.frontier);
    var inside := FilterInside(c.viewport, all);
    assert CallOk(p, served, s.version, c) by {
      hide CallOk, CacheOk, SplitsOk;
    }
    forall k: Cafe
      ensures k in all <==> k in cafes && k.active && Covered(p, c.viewport, k.at)
    {
      GatheredIsExact(p, served, c, cafes, s.version, k);
    }
    forall k: Cafe
      ensures k in inside <==> k in all && InsideViewport(c.viewport, k.at)
    {
      FilterMembers(c.viewport, all, k);
    }
    hide InsideViewport, Covered, CallOk, Gather, FilterInside, Deduplicate;
    DeduplicateKeepsEachOnce(inside);
    assert SameIdSameCafe(inside);
  }

  lemma GatheredIsExact(p: Projection, served: Served, c: Call, cafes: Catalogue, version: Version, k: Cafe)
    requires p.Mercator() && CallOk(p, served, version, c) && Returned(c)
    requires forall v: Version :: VersionLabel(v) in c.labels ==> served(v) == cafes
    ensures k in Gather(c.frontier) <==> k in cafes && k.active && Covered(p, c.viewport, k.at)
  {
    hide RootZoom, InTile, VersionLabel;
    GatherMembers(c.frontier, k);
    if n :| n in c.frontier && n.Done? && k in n.features {
      DoneTileIsExact(p, served, c, cafes, n, k);
      TilesStayInWorld(p, n.tile, k.at);
      assert InSome(p, c.frontier, k.at);
    }
    if k in cafes && k.active && Covered(p, c.viewport, k.at) {
      CoveredInWorld(p, c.viewport, k.at);
      assert InSome(p, c.frontier, k.at);
      var n :| n in c.frontier && InTile(p, n.tile, k.at);
      DoneTileIsExact(p, served, c, cafes, n, k);
    }
  }

  lemma CoveredInWorld(p: Projection, v: Viewport, at: Point)
    requires p.Mercator() && Covered(p, v, at)
    ensures InWorld(p, at)
  {
    hide InTile, RootRange, RootZoom, Pow2, CanonicalX;
    RootRangeRows(p, v);
    var tile :| InRange(RootRange(p, v), tile) && InTile(p, tile, at);
    TilesStayInWorld(p, tile, at);
  }

  /**
   The tile cache agrees with filtering the catalogue by the viewport: from any reachable
   state, for every viewport that loses no edge and every catalogue inside the world square.
   */
  lemma GetCafesIsViewportFilter(p: Projection, served: Served, s: Provider, call: nat, cafes: Catalogue)
    requires p.Mercator() && Inv(p, served, s) && call < |s.calls| && Returned(s.calls[call])
    requires KeyedById(cafes) && forall k :: k in cafes ==> InWorld(p, k.at)
    requires forall v: Version :: VersionLabel(v) in s.calls[call].labels ==> served(v) == cafes
    requires !LosesPoint(p, s.calls[call].viewport)
    ensures var c := s.calls[call];
            && DistinctIds(CallResult(c))
            && (forall k :: k in CallResult(c) <==> k in cafes && k.active && InsideViewport(c.viewport, k.at))
  {
    var c := s.calls[call];
    ReturnedCallIsExact(p, served, s, call, cafes);
    hide InsideViewport, Covered, InWorld, LosesPoint, CallResult, Inv;
    forall k | k in cafes && InsideViewport(c.viewport, k.at)
      ensures Covered(p, c.viewport, k.at)
    {
      PointCovered(p, c.viewport, k.at);
    }
  }

  /** Every other viewport that shows any of the world fails on some catalogue: a one-cafe one. */
  lemma LosingViewportLosesACafe(p: Projection, served: Served, s: Provider, call: nat, id: int)
    requires p.Mercator() && Inv(p, served, s) && call < |s.calls| && Returned(s.calls[call])
    requires MeetsWorld(p, s.calls[call].viewport) && LosesPoint(p, s.calls[call].viewport)
    requires var cafe := Cafe(id, LostPoint(p, s.calls[call].viewport), true);
             forall v: Version :: served(v) == {cafe}
    ensures var cafe := Cafe(id, LostPoint(p, s.calls[call].viewport), true);
            InWorld(p, cafe.at) && InsideViewport(s.calls[call].viewport, cafe.at) && CallResult(s.calls[call]) == []
  {
    var c := s.calls[call];
    var cafe := Cafe(id, LostPoint(p, c.viewport), true);
    LostPointIsShown(p, c.viewport);
    LostPointIsLost(p, c.viewport);
    hide LostPoint, LosesPoint, MeetsWorld, Covered, InsideViewport, InWorld, Inv, CallResult;
    ReturnedCallIsExact(p, served, s, call, {cafe});
    if CallResult(c) != [] {
      FirstIsMember(CallResult(c));
    }
  }

  lemma FirstIsMember(cafes: seq<Cafe>)
    requires cafes != []
    ensures cafes[0] in cafes
  {
  }

  /** Whole runs over one fixed catalogue, from the first call on. */
  lemma EveryRunAnswersFromCatalogue(p: Projection, cafes: Catalogue, steps: seq<Step>, call: nat)
    requires p.Mercator() && KeyedById(cafes) && IsRun(p, _ => cafes, INITIAL, steps)
    requires var s := After(p, _ => cafes, INITIAL, steps); call < |s.calls| && Returned(s.calls[call])
    ensures var c := After(p, _ => cafes, INITIAL, steps).calls[call];
            && DistinctIds(CallResult(c))
            && (forall k :: k in CallResult(c) <==>
                            && k in cafes && k.active && InsideViewport(c.viewport, k.at)
                            && Covered(p, c.viewport, k.at))
  {
    var served: Served := _ => cafes;
    EveryRunKeepsInv(p, served, INITIAL, steps);
    ReturnedCallIsExact(p, served, After(p, served, INITIAL, steps), call, cafes);
  }

  // ---------------------------------------------------------------------------------------
  // Termination
  // ---------------------------------------------------------------------------------------

  /** An upper bound on the steps a pending tile can still cause. */
  ghost function Work(z: nat): nat
    decreases DEEPEST_SPLIT_ZOOM + 1 - z
  {
    if z > DEEPEST_SPLIT_ZOOM then 2 else 2 + 4 * Work(z + 1)
  }

  ghost function NodeWork(n: Node): nat {
    match n
    case Pending(tile, _) => Work(tile.z)
    case InFlight(tile, _, _) => Work(tile.z) - 1
    case Done(_, _) => 0
    case Failed(_) => 0
  }

  ghost function FrontierWork(nodes: seq<Node>): nat {
    if nodes == [] then 0 else NodeWork(nodes[0]) + FrontierWork(nodes[1..])
  }

  ghost function CallsWork(calls: seq<Call>): nat {
    if calls == [] then 0 else FrontierWork(calls[0].frontier) + CallsWork(calls[1..])
  }

  predicate OnTile(step: Step) {
    step.Visit? || step.Receive? || step.Reject?
  }

  lemma {:induction false} FrontierWorkSum(a: seq<Node>, b: seq<Node>)
    ensures FrontierWork(a + b) == FrontierWork(a) + FrontierWork(b)
  {
    if a == [] {
      assert a + b == b;
    } else {
      assert (a + b)[1..] == a[1..] + b;
      FrontierWorkSum(a[1..], b);
    }
  }

  lemma ReplaceWork(nodes: seq<Node>, index: nat, put: seq<Node>)
    requires index < |nodes|
    ensures FrontierWork(Replace(nodes, index, put)) == FrontierWork(nodes) - NodeWork(nodes[index]) + FrontierWork(put)
  {
    var left, right := nodes[..index], nodes[index + 1..];
    assert nodes == left + ([nodes[index]] + right);
    FrontierWorkSum(left, [nodes[index]] + right);
    FrontierWorkSum(left + put, right);
    FrontierWorkSum(left, put);
    assert ([nodes[index]] + right)[1..] == right;
  }

  lemma {:induction false} CallsWorkUpdate(calls: seq<Call>, call: nat, c: Call)
    requires call < |calls|
    ensures CallsWork(calls[call := c])
            == CallsWork(calls) - FrontierWork(calls[call].frontier) + FrontierWork(c.frontier)
  {
    if call == 0 {
      assert calls[0 := c][1..] == calls[1..];
    } else {
      assert calls[call := c][1..] == calls[1..][call - 1 := c];
      CallsWorkUpdate(calls[1..], call - 1, c);
    }
  }

  lemma WithNodesWork(s: Provider, call: nat, index: nat, put: seq<Node>)
    requires HasNode(s, call, index)
    ensures CallsWork(WithNodes(s, call, index, put).calls) ==
            CallsWork(s.calls) - NodeWork(s.calls[call].frontier[index]) + FrontierWork(put)
  {
    var c := s.calls[call];
    ReplaceWork(c.frontier, index, put);
    CallsWorkUpdate(s.calls, call, c.(frontier := Replace(c.frontier, index, put)));
  }

  lemma ChildrenWork(tile: Tile, depth: nat)
    requires tile.z <= DEEPEST_SPLIT_ZOOM
    ensures FrontierWork(Children(tile, depth)) == Work(tile.z) - 2
  {
    var kids := Children(tile, depth);
    assert FrontierWork(kids[3..]) == NodeWork(kids[3]);
    assert FrontierWork(kids[2..]) == NodeWork(kids[2]) + FrontierWork(kids[3..]);
    assert FrontierWork(kids[1..]) == NodeWork(kids[1]) + FrontierWork(kids[2..]);
  }

  /** Every step on a tile uses up work, whatever the split set remembers from other roots. */
  lemma TileStepUsesWork(p: Projection, served: Served, s: Provider, step: Step)
    requires p.Mercator() && Inv(p, served, s) && Enabled(p, served, s, step) && OnTile(step)
    ensures CallsWork(Next(p, served, s, step).calls) < CallsWork(s.calls)
  {
    hide Inv, WithNodes, CallsWork, Children, FrontierWork, AfterRead, AfterStore, ReadValue, RootZoom, NodeOk,
         Matching, TileBounds;
    var n := s.calls[step.call].frontier[step.index];
    UnfinishedNode(p, served, s, step.call, step.index);
    var c := s.calls[step.call];
    SingleWork(Failed(n.tile));
    WithNodesWork(s, step.call, step.index, [Failed(n.tile)]);
    match step
    case Visit(call, index) =>
      VisitUsesWork(p, served, s, call, index);
    case Receive(call, index, reply) =>
      if !reply.truncated {
        SingleWork(Done(n.tile, reply.items));
        var key := TileKey(VersionLabel(n.version), n.tile);
        WithNodesWork(s.(cache := AfterStore(s.cache, key, reply.items, s.now)), call, index,
                      [Done(n.tile, reply.items)]);
      } else if n.depth < MAX_VIEWPORT_SPLIT_DEPTH {
        SplitZoomBound(p, served, c.viewport, c.labels, n);
        ChildrenWork(n.tile, n.depth + 1);
        WithNodesWork(s.(splitTiles := s.splitTiles + {n.tile}), call, index, Children(n.tile, n.depth + 1));
      }
    case Reject(call, index) =>
  }

  lemma SingleWork(n: Node)
    ensures FrontierWork([n]) == NodeWork(n)
  {
  }

  lemma VisitUsesWork(p: Projection, served: Served, s: Provider, call: nat, index: nat)
    requires p.Mercator() && Inv(p, served, s) && HasNode(s, call, index) && s.calls[call].frontier[index].Pending?
    ensures CallsWork(VisitNode(s, call, index).calls) < CallsWork(s.calls)
  {
    hide Inv, WithNodes, CallsWork, Children, FrontierWork, AfterRead, ReadValue;
    var n := s.calls[call].frontier[index];
    var read := Read(s, n.tile);
    match ReadValue(s.cache, TileKey(VersionLabel(s.version), n.tile), s.now)
    case Some(features) =>
      SingleWork(Done(n.tile, features));
      WithNodesWork(read, call, index, [Done(n.tile, features)]);
    case None =>
      if n.tile in s.splitTiles {
        RememberedSplit(p, served, s, n.tile);
        ChildrenWork(n.tile, n.depth + 1);
        WithNodesWork(read, call, index, Children(n.tile, n.depth + 1));
      } else {
        SingleWork(InFlight(n.tile, n.depth, s.version));
        WithNodesWork(read, call, index, [InFlight(n.tile, n.depth, s.version)]);
      }
  }

  ghost function TileSteps(steps: seq<Step>): nat {
    if steps == [] then 0 else (if OnTile(steps[0]) then 1 else 0) + TileSteps(steps[1..])
  }

  lemma {:induction false} SameFrontiersSameWork(calls: seq<Call>, others: seq<Call>)
    requires |calls| == |others| && forall i :: 0 <= i < |calls| ==> calls[i].frontier == others[i].frontier
    ensures CallsWork(calls) == CallsWork(others)
  {
    if calls != [] {
      SameFrontiersSameWork(calls[1..], others[1..]);
    }
  }

  /**
   Termination: between new calls, the steps on tiles never exceed the work at hand, for
   every interleaving and every state the split set and the cache may be in.
   */
  lemma {:induction false} EveryRunTerminates(p: Projection, served: Served, s: Provider, steps: seq<Step>)
    requires p.Mercator() && Inv(p, served, s) && IsRun(p, served, s, steps)
    requires forall i :: 0 <= i < |steps| ==> !steps[i].GetCafes?
    ensures TileSteps(steps) + CallsWork(After(p, served, s, steps).calls) <= CallsWork(s.calls)
    decreases |steps|
  {
    hide Inv, CallsWork, VisitNode, ReceiveReply;
    if steps == [] {
    } else {
      var t := Next(p, served, s, steps[0]);
      NextKeepsInv(p, served, s, steps[0]);
      EveryRunTerminates(p, served, t, steps[1..]);
      if OnTile(steps[0]) {
        TileStepUsesWork(p, served, s, steps[0]);
      } else {
        SameFrontiersSameWork(s.calls, t.calls);
      }
    }
  }

  // ---------------------------------------------------------------------------------------
  // Version labels
  // ---------------------------------------------------------------------------------------

  /** Only the missing version and the literal text "unknown" share a label. */
  lemma LabelsNameVersions(v: Version, w: Version)
    ensures VersionLabel(v) == VersionLabel(w) <==>
            v == w || {v, w} == {None, Some("unknown")}
  {
    if v != w && VersionLabel(v) == VersionLabel(w) {
      assert v == None || w == None;
      assert {v, w} == {None, Some("unknown")};
    }
    if {v, w} == {None, Some("unknown")} {
      assert v in {None, Some("unknown")} && w in {None, Some("unknown")};
    }
  }

  /**
   A served cache entry was the server's answer for the version current now, also when its fetch
   began before a version change, if the versions with its label have one answer. `TileVersions`
   says which runs meet the premise.
   */
  lemma CacheServesCurrentVersion(p: Projection, served: Served, s: Provider, tile: Tile)
    requires Inv(p, served, s)
    requires served(None) == served(Some("unknown")) || s.version !in {None, Some("unknown")}
    ensures var found := ReadValue(s.cache, TileKey(VersionLabel(s.version), tile), s.now);
            found.Some? ==> Lists(found.value, Matching(served(s.version), TileBounds(p, tile)))
  {
    ReadKeepsInv(p, served, s, tile);
    hide ReadValue, Inv, VersionLabel, TileBounds;
    var found := ReadValue(s.cache, TileKey(VersionLabel(s.version), tile), s.now);
    if found.Some? {
      var v: Version :| VersionLabel(v) == VersionLabel(s.version)
                        && Lists(found.value, Matching(served(v), TileBounds(p, tile)));
      LabelsNameVersions(v, s.version);
      assert v in {v, s.version} && s.version in {v, s.version};
    }
  }

  lemma OneStepMore(p: Projection, served: Served, s: Provider, step: Step, rest: seq<Step>)
    requires Enabled(p, served, s, step) && IsRun(p, served, Next(p, served, s, step), rest)
    ensures IsRun(p, served, s, [step] + rest)
    ensures After(p, served, s, [step] + rest) == After(p, served, Next(p, served, s, step), rest)
  {
    assert ([step] + rest)[1..] == rest;
  }
}
