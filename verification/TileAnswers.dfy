/**
 When a call of the map client answers (`getCafes` and `getTileFeatures` in frontend/src/cafe-provider.ts): a
 truncated tile is split instead of failing, down to six zooms below the root tiles of the call.
 */
module TileAnswers {
  import opened CafeSummaries
  import opened Outcomes
  import opened TileCache
  import opened TileGeometry
  import opened TileProvider

  /** The tile matches more active cafes than one reply may list. */
  ghost predicate Dense(p: Projection, cafes: Catalogue, tile: Tile) {
    |Matching(cafes, TileBounds(p, tile))| > 5000
  }

  /** Every version is answered from one catalogue. */
  ghost predicate Serves(served: Served, cafes: Catalogue) {
    forall v: Version :: served(v) == cafes
  }

  predicate NoReject(steps: seq<Step>) {
    forall i :: 0 <= i < |steps| ==> !steps[i].Reject?
  }

  // ---------------------------------------------------------------------------------------
  // Tiles inside tiles
  // ---------------------------------------------------------------------------------------

  function Parent(tile: Tile): Tile
    requires tile.z > 0
  {
    Tile(tile.z - 1, tile.x / 2, tile.y / 2)
  }

  /** The tile at an earlier zoom that the tile is a part of. */
  function Ascend(tile: Tile, z: nat): Tile
    decreases tile.z
  {
    if tile.z <= z then tile else Ascend(Parent(tile), z)
  }

  predicate Within(tile: Tile, root: Tile) {
    root.z <= tile.z && Ascend(tile, root.z) == root
  }

  predicate WithinSome(tile: Tile, roots: seq<Tile>) {
    exists r :: r in roots && Within(tile, r)
  }

  lemma {:induction false} AscendAgain(tile: Tile, y: nat, z: nat)
    requires z <= y <= tile.z
    ensures Ascend(tile, y).z == y && Ascend(Ascend(tile, y), z) == Ascend(tile, z)
    decreases tile.z
  {
    if tile.z > y { AscendAgain(Parent(tile), y, z); }
  }

  lemma ChildIsWithin(child: Tile, tile: Tile, roots: seq<Tile>)
    requires child in TileChildren(tile) && WithinSome(tile, roots)
    ensures Parent(child) == tile && WithinSome(child, roots)
  {
    var r :| r in roots && Within(tile, r);
    assert Parent(child) == tile;
    assert Ascend(child, r.z) == Ascend(tile, r.z);
  }

  /** A tile strictly inside another is inside one of its children. */
  lemma WithinAChild(deep: Tile, tile: Tile)
    requires Within(deep, tile) && tile.z < deep.z
    ensures Within(deep, Ascend(deep, tile.z + 1)) && Ascend(deep, tile.z + 1) in TileChildren(tile)
  {
    var child := Ascend(deep, tile.z + 1);
    AscendAgain(deep, tile.z + 1, tile.z);
    assert Parent(child) == tile;
    IsAChild(child);
  }

  lemma IsAChild(child: Tile)
    requires child.z > 0
    ensures child in TileChildren(Parent(child))
  {
    var kids := TileChildren(Parent(child));
    assert child == kids[child.x % 2 + 2 * (child.y % 2)];
  }

  lemma ParentIsDense(p: Projection, cafes: Catalogue, tile: Tile)
    requires p.Mercator() && ValidTile(tile) && tile.z > 0 && Dense(p, cafes, tile)
    ensures ValidTile(Parent(tile)) && Dense(p, cafes, Parent(tile))
  {
    hide TileBounds, InBox, InWorld;
    var parent := Parent(tile);
    assert Pow2(tile.z) == 2 * Pow2(parent.z);
    IsAChild(tile);
    var inner, outer := Matching(cafes, TileBounds(p, tile)), Matching(cafes, TileBounds(p, parent));
    forall c | c in inner
      ensures c in outer
    {
      TilesStayInWorld(p, tile, c.at);
      ChildrenCoverParent(p, parent, c.at);
    }
    SubsetSize(inner, outer);
  }

  lemma SubsetSize<T>(a: set<T>, b: set<T>)
    requires a <= b
    ensures |a| <= |b|
  {
    assert b == a + (b - a);
  }

  lemma {:induction false} AncestorIsDense(p: Projection, cafes: Catalogue, tile: Tile, z: nat)
    requires p.Mercator() && ValidTile(tile) && z <= tile.z && Dense(p, cafes, tile)
    ensures ValidTile(Ascend(tile, z)) && Dense(p, cafes, Ascend(tile, z))
    decreases tile.z
  {
    if tile.z > z {
      ParentIsDense(p, cafes, tile);
      AncestorIsDense(p, cafes, Parent(tile), z);
    }
  }

  // ---------------------------------------------------------------------------------------
  // What a run without rejections keeps
  // ---------------------------------------------------------------------------------------

  /** The tile belongs to the call; it failed only where it had to, and was answered only where it could be. */
  ghost predicate Fits(p: Projection, cafes: Catalogue, c: Call, n: Node) {
    && WithinSome(n.tile, c.roots)
    && (n.Failed? ==> ValidTile(n.tile) && Dense(p, cafes, n.tile) && n.tile.z >= RootZoom(p, c.viewport) + 6)
    && (n.Done? ==> !Dense(p, cafes, n.tile))
  }

  ghost predicate CallFits(p: Projection, cafes: Catalogue, c: Call) {
    forall n :: n in c.frontier ==> Fits(p, cafes, c, n)
  }

  ghost predicate ThinCache(p: Projection, cafes: Catalogue, cache: Entries) {
    forall e :: e in cache ==> !Dense(p, cafes, e.key.tile)
  }

  ghost predicate Answering(p: Projection, cafes: Catalogue, s: Provider) {
    && DistinctKeys(s.cache) && ThinCache(p, cafes, s.cache)
    && forall i :: 0 <= i < |s.calls| ==> CallFits(p, cafes, s.calls[i])
  }

  lemma ChildrenFit(p: Projection, cafes: Catalogue, c: Call, tile: Tile, depth: nat)
    requires WithinSome(tile, c.roots)
    ensures forall m :: m in Children(tile, depth) ==> Fits(p, cafes, c, m)
  {
    hide Within, Dense, RootZoom, ValidTile;
    forall m | m in Children(tile, depth)
      ensures Fits(p, cafes, c, m)
    {
      ChildIsWithin(m.tile, tile, c.roots);
    }
  }

  /** The tiles a step puts in place of the one it is about, and when these are its children. */
  ghost predicate Puts(p: Projection, cafes: Catalogue, s: Provider, t: Provider, c: Call, n: Node, put: seq<Node>)
    requires Unfinished(n)
  {
    && (forall m :: m in put ==> Fits(p, cafes, c, m))
    && ThinCache(p, cafes, t.cache)
    && ((|put| == 1 && put[0].tile == n.tile && t.splitTiles == s.splitTiles)
        || (put == Children(n.tile, n.depth + 1) && t.splitTiles == s.splitTiles && n.tile in s.splitTiles)
        || (put == Children(n.tile, n.depth + 1) && t.splitTiles == s.splitTiles + {n.tile}
            && n.tile.z < RootZoom(p, c.viewport) + 6))
  }

  predicate IsWithNodes(s: Provider, t: Provider, call: nat, index: nat, put: seq<Node>) {
    HasNode(s, call, index) && t.calls == WithNodes(s, call, index, put).calls
  }

  lemma VisitPuts(p: Projection, cafes: Catalogue, s: Provider, call: nat, index: nat) returns (put: seq<Node>)
    requires Answering(p, cafes, s) && HasNode(s, call, index) && s.calls[call].frontier[index].Pending?
    ensures var t, c := VisitNode(s, call, index), s.calls[call];
            IsWithNodes(s, t, call, index, put) && Puts(p, cafes, s, t, c, c.frontier[index], put)
  {
    hide Dense, RootZoom, ValidTile, WithinSome, AfterRead, ReadValue, Children;
    var c := s.calls[call];
    var n, key := c.frontier[index], TileKey(VersionLabel(s.version), c.frontier[index].tile);
    assert Fits(p, cafes, c, n) by { assert n in c.frontier; }
    ReadStaysThin(p, cafes, s.cache, key, s.now);
    ChildrenFit(p, cafes, c, n.tile, n.depth + 1);
    put := match ReadValue(s.cache, key, s.now)
      case Some(features) => [Done(n.tile, features)]
      case None =>
        if n.tile in s.splitTiles then Children(n.tile, n.depth + 1) else [InFlight(n.tile, n.depth, s.version)];
  }

  lemma ReadStaysThin(p: Projection, cafes: Catalogue, cache: Entries, key: TileKey, now: int)
    requires DistinctKeys(cache) && ThinCache(p, cafes, cache)
    ensures ThinCache(p, cafes, AfterRead(cache, key, now))
    ensures ReadValue(cache, key, now).Some? ==> !Dense(p, cafes, key.tile)
  {
    hide Dense, AfterRead, ReadValue;
    ReadServesAnItem(cache, key, now);
  }

  lemma ReceivePuts(p: Projection, served: Served, cafes: Catalogue, s: Provider, call: nat, index: nat, reply: Reply)
    returns (put: seq<Node>)
    requires Answering(p, cafes, s) && Inv(p, served, s) && Serves(served, cafes)
    requires Enabled(p, served, s, Receive(call, index, reply))
    ensures var t, c := ReceiveReply(s, call, index, reply), s.calls[call];
            IsWithNodes(s, t, call, index, put) && Puts(p, cafes, s, t, c, c.frontier[index], put)
  {
    var c := s.calls[call];
    var n := c.frontier[index];
    UnfinishedNode(p, served, s, call, index);
    hide RootZoom, ValidTile, WithinSome, AfterStore, Children, Matching, TileBounds, Inv, Sound;
    assert Fits(p, cafes, c, n) by { assert n in c.frontier; }
    assert reply.truncated <==> Dense(p, cafes, n.tile);
    ChildrenFit(p, cafes, c, n.tile, n.depth + 1);
    put := if !reply.truncated then [Done(n.tile, reply.items)]
      else if n.depth >= MAX_VIEWPORT_SPLIT_DEPTH then [Failed(n.tile)] else Children(n.tile, n.depth + 1);
    if !reply.truncated {
      StoreStaysThin(p, cafes, s.cache, TileKey(VersionLabel(n.version), n.tile), reply.items, s.now);
    }
  }

  lemma StoreStaysThin(p: Projection, cafes: Catalogue, cache: Entries, key: TileKey, features: seq<Cafe>, now: int)
    requires DistinctKeys(cache) && ThinCache(p, cafes, cache) && !Dense(p, cafes, key.tile)
    ensures ThinCache(p, cafes, AfterStore(cache, key, features, now))
  {
    hide Dense, AfterStore;
    StoreAddsAnItem(cache, key, features, now);
  }

  lemma TileStepKeepsAnswering(
      p: Projection, cafes: Catalogue, s: Provider, t: Provider, call: nat, index: nat, put: seq<Node>)
    requires Answering(p, cafes, s) && DistinctKeys(t.cache) && IsWithNodes(s, t, call, index, put)
    requires Unfinished(s.calls[call].frontier[index])
    requires Puts(p, cafes, s, t, s.calls[call], s.calls[call].frontier[index], put)
    ensures Answering(p, cafes, t)
  {
    hide Dense, RootZoom, ValidTile, WithinSome, Replace, Fits, CallFits;
    var c := s.calls[call];
    ReplaceFits(p, cafes, c, index, put);
    forall i | 0 <= i < |t.calls|
      ensures CallFits(p, cafes, t.calls[i])
    {
      assert CallFits(p, cafes, s.calls[i]);
    }
  }

  lemma ReplaceFits(p: Projection, cafes: Catalogue, c: Call, index: nat, put: seq<Node>)
    requires CallFits(p, cafes, c) && index < |c.frontier| && forall m :: m in put ==> Fits(p, cafes, c, m)
    ensures CallFits(p, cafes, c.(frontier := Replace(c.frontier, index, put)))
  {
    hide Dense, RootZoom, ValidTile, WithinSome, Replace;
    MembersOfReplace(c.frontier, index, put);
    var more := c.(frontier := Replace(c.frontier, index, put));
    forall n | n in more.frontier
      ensures Fits(p, cafes, more, n)
    {
      assert n in put || n in c.frontier;
    }
  }

  lemma NewCallFits(p: Projection, cafes: Catalogue, c: Call)
    requires c.frontier == RootNodes(c.roots)
    ensures CallFits(p, cafes, c)
  {
    hide Dense, RootZoom, ValidTile;
    forall n | n in c.frontier
      ensures WithinSome(n.tile, c.roots)
    {
      assert n.tile in c.roots && Within(n.tile, n.tile);
    }
  }

  lemma StepKeepsAnswering(p: Projection, served: Served, cafes: Catalogue, s: Provider, step: Step)
    requires p.Mercator() && Inv(p, served, s) && Serves(served, cafes) && Answering(p, cafes, s)
    requires Enabled(p, served, s, step) && !step.Reject?
    ensures Answering(p, cafes, Next(p, served, s, step))
  {
    hide Inv, Dense, RootZoom, ValidTile, WithinSome, RootTiles, IsReply, VisitNode, ReceiveReply, Puts, TileBounds;
    NextKeepsInv(p, served, s, step);
    CacheStaysDistinct(p, served, Next(p, served, s, step));
    match step
    case GetCafes(viewport, roots) =>
      NewCallFits(p, cafes, Call(viewport, roots, RootNodes(roots), {VersionLabel(s.version)}));
    case Visit(call, index) =>
      var put := VisitPuts(p, cafes, s, call, index);
      TileStepKeepsAnswering(p, cafes, s, VisitNode(s, call, index), call, index, put);
    case Receive(call, index, reply) =>
      var put := ReceivePuts(p, served, cafes, s, call, index, reply);
      TileStepKeepsAnswering(p, cafes, s, ReceiveReply(s, call, index, reply), call, index, put);
    case SetCacheVersion(version) =>
      forall i | 0 <= i < |s.calls|
        ensures CallFits(p, cafes, ChangeVersion(s, version).calls[i])
      {
        assert CallFits(p, cafes, s.calls[i]);
      }
    case Tick(now) =>
  }

  lemma CacheStaysDistinct(p: Projection, served: Served, s: Provider)
    requires Inv(p, served, s)
    ensures DistinctKeys(s.cache)
  {
    hide CallOk, SplitsOk, Sound;
  }

  lemma {:induction false} RunKeepsAnswering(
      p: Projection, served: Served, cafes: Catalogue, s: Provider, steps: seq<Step>)
    requires p.Mercator() && Inv(p, served, s) && Serves(served, cafes) && Answering(p, cafes, s)
    requires IsRun(p, served, s, steps) && NoReject(steps)
    ensures Answering(p, cafes, After(p, served, s, steps))
    decreases |steps|
  {
    hide Inv, Answering, Next, Enabled;
    if steps != [] {
      NextKeepsInv(p, served, s, steps[0]);
      StepKeepsAnswering(p, served, cafes, s, steps[0]);
      RunKeepsAnswering(p, served, cafes, Next(p, served, s, steps[0]), steps[1..]);
    }
  }

  /** Some tile of the call six zooms below its root tiles matches more cafes than a reply may list. */
  ghost predicate TooDense(p: Projection, cafes: Catalogue, c: Call) {
    exists tile: Tile :: tile.z == RootZoom(p, c.viewport) + 6 && WithinSome(tile, c.roots) && Dense(p, cafes, tile)
  }

  lemma FailedMeansTooDense(p: Projection, cafes: Catalogue, c: Call, n: Node)
    requires p.Mercator() && Fits(p, cafes, c, n) && n.Failed?
    requires forall r :: r in c.roots ==> r.z == RootZoom(p, c.viewport)
    ensures TooDense(p, cafes, c)
  {
    hide Dense, RootZoom, ValidTile;
    var z := RootZoom(p, c.viewport) + 6;
    var r :| r in c.roots && Within(n.tile, r);
    AncestorIsDense(p, cafes, n.tile, z);
    AscendAgain(n.tile, z, r.z);
    assert Within(Ascend(n.tile, z), r);
  }

  /** The root tiles of every call are tiles of its root zoom. */
  ghost predicate RootsFit(p: Projection, s: Provider) {
    forall c, r :: c in s.calls && r in c.roots ==> r.z == RootZoom(p, c.viewport) && ValidTile(r)
  }

  lemma {:induction false} RunKeepsRoots(p: Projection, served: Served, s: Provider, steps: seq<Step>)
    requires IsRun(p, served, s, steps) && RootsFit(p, s)
    ensures RootsFit(p, After(p, served, s, steps))
    decreases |steps|
  {
    hide RootsFit, Next, Enabled;
    if steps != [] {
      StepKeepsRoots(p, served, s, steps[0]);
      RunKeepsRoots(p, served, Next(p, served, s, steps[0]), steps[1..]);
    }
  }

  lemma StepKeepsRoots(p: Projection, served: Served, s: Provider, step: Step)
    requires Enabled(p, served, s, step) && RootsFit(p, s)
    ensures RootsFit(p, Next(p, served, s, step))
  {
    hide RootZoom, AfterRead, AfterStore, ReadValue, Children, Replace, IsReply, RootRange, Pow2, CanonicalX;
    var t := Next(p, served, s, step);
    forall i | 0 <= i < |t.calls|
      ensures forall r :: r in t.calls[i].roots ==> r.z == RootZoom(p, t.calls[i].viewport) && ValidTile(r)
    {
      if i < |s.calls| {
        assert s.calls[i] in s.calls;
      } else {
        RootRangeRows(p, t.calls[i].viewport);
      }
    }
  }

  /**
   A call that nothing rejects answers once no tile of it is under way, unless the catalogue has more than 5000
   active cafes in one tile six zooms below its root tiles.
   */
  lemma FinishedCallAnswers(p: Projection, served: Served, cafes: Catalogue, steps: seq<Step>, call: nat)
    requires p.Mercator() && Serves(served, cafes) && IsRun(p, served, INITIAL, steps) && NoReject(steps)
    requires call < |After(p, served, INITIAL, steps).calls| && Finished(After(p, served, INITIAL, steps).calls[call])
    ensures var c := After(p, served, INITIAL, steps).calls[call];
            Returned(c) || TooDense(p, cafes, c)
  {
    hide After, IsRun, Fits, TooDense;
    InitialAnswers(p, served, cafes);
    RunKeepsAnswering(p, served, cafes, INITIAL, steps);
    RunKeepsRoots(p, served, INITIAL, steps);
    var s := After(p, served, INITIAL, steps);
    var c := s.calls[call];
    assert CallFits(p, cafes, c) && c in s.calls;
    if n :| n in c.frontier && !n.Done? {
      FailedMeansTooDense(p, cafes, c, n);
    }
  }

  lemma InitialAnswers(p: Projection, served: Served, cafes: Catalogue)
    ensures Inv(p, served, INITIAL) && Answering(p, cafes, INITIAL) && RootsFit(p, INITIAL)
  {
  }

  // ---------------------------------------------------------------------------------------
  // Exactly when, for calls of one root zoom
  // ---------------------------------------------------------------------------------------

  /** Every tile of the call at the deepest zoom is inside a tile of the frontier. */
  ghost predicate Reaches(c: Call, z: nat) {
    forall deep: Tile :: deep.z == z && WithinSome(deep, c.roots) ==> InsideSome(deep, c.frontier)
  }

  ghost predicate InsideSome(deep: Tile, nodes: seq<Node>) {
    exists n :: n in nodes && Within(deep, n.tile)
  }

  ghost predicate LevelCall(p: Projection, c: Call, z: nat) {
    && RootZoom(p, c.viewport) == z
    && (forall n :: n in c.frontier ==> n.tile.z <= z + 6)
    && Reaches(c, z + 6)
  }

  /** No split is remembered from a deeper root zoom. */
  ghost predicate Level(p: Projection, s: Provider, z: nat) {
    && (forall tile :: tile in s.splitTiles ==> tile.z < z + 6)
    && forall i :: 0 <= i < |s.calls| ==> LevelCall(p, s.calls[i], z)
  }

  lemma ReplaceReaches(c: Call, index: nat, put: seq<Node>, z: nat)
    requires Reaches(c, z) && index < |c.frontier|
    requires forall deep: Tile :: deep.z == z && Within(deep, c.frontier[index].tile) ==> InsideSome(deep, put)
    ensures Reaches(c.(frontier := Replace(c.frontier, index, put)), z)
  {
    hide Within, Replace, WithinSome;
    var more := c.(frontier := Replace(c.frontier, index, put));
    MembersOfReplace(c.frontier, index, put);
    forall deep: Tile | deep.z == z && WithinSome(deep, c.roots)
      ensures InsideSome(deep, more.frontier)
    {
      var n :| n in c.frontier && Within(deep, n.tile);
      if n == c.frontier[index] {
        var m :| m in put && Within(deep, m.tile);
        assert m in more.frontier;
      } else {
        assert n in more.frontier;
      }
    }
  }

  lemma ChildrenReach(tile: Tile, depth: nat, z: nat)
    requires tile.z < z
    ensures forall deep: Tile :: deep.z == z && Within(deep, tile) ==> InsideSome(deep, Children(tile, depth))
  {
    hide Ascend;
    forall deep: Tile | deep.z == z && Within(deep, tile)
      ensures InsideSome(deep, Children(tile, depth))
    {
      WithinAChild(deep, tile);
      var kids, nodes, child := TileChildren(tile), Children(tile, depth), Ascend(deep, tile.z + 1);
      assert forall k :: 0 <= k < 4 ==> nodes[k].tile == kids[k] && nodes[k] in nodes;
      assert child == kids[0] || child == kids[1] || child == kids[2] || child == kids[3];
    }
  }

  lemma OneReaches(n: Node, tile: Tile, z: nat)
    requires n.tile == tile
    ensures forall deep: Tile :: deep.z == z && Within(deep, tile) ==> InsideSome(deep, [n])
  {
    hide Within;
    assert n in [n];
  }

  lemma TileStepKeepsLevel(
      p: Projection, cafes: Catalogue, s: Provider, t: Provider, call: nat, index: nat, put: seq<Node>, z: nat)
    requires Level(p, s, z) && IsWithNodes(s, t, call, index, put)
    requires Unfinished(s.calls[call].frontier[index])
    requires Puts(p, cafes, s, t, s.calls[call], s.calls[call].frontier[index], put)
    ensures Level(p, t, z)
  {
    hide Dense, RootZoom, ValidTile, WithinSome, Replace, Fits, ThinCache, Reaches;
    var c := s.calls[call];
    var n := c.frontier[index];
    assert LevelCall(p, c, z) && n in c.frontier;
    MembersOfReplace(c.frontier, index, put);
    if |put| == 1 {
      OneReaches(put[0], n.tile, z + 6);
      assert put == [put[0]];
    } else {
      ChildrenReach(n.tile, n.depth + 1, z + 6);
    }
    ReplaceReaches(c, index, put, z + 6);
    assert LevelCall(p, t.calls[call], z);
  }

  lemma NewCallLevel(p: Projection, c: Call, z: nat)
    requires RootZoom(p, c.viewport) == z && c.frontier == RootNodes(c.roots)
    requires forall r :: r in c.roots ==> r.z == z
    ensures LevelCall(p, c, z)
  {
    hide RootZoom, Within;
    forall n | n in c.frontier
      ensures n.tile.z <= z + 6
    {
      assert n.tile in c.roots;
    }
    forall deep: Tile | deep.z == z + 6 && WithinSome(deep, c.roots)
      ensures InsideSome(deep, c.frontier)
    {
      var r :| r in c.roots && Within(deep, r);
      var i :| 0 <= i < |c.roots| && c.roots[i] == r;
      assert c.frontier[i] in c.frontier;
    }
  }

  /** Every call of the run has this root zoom. */
  ghost predicate AllAtZoom(p: Projection, steps: seq<Step>, z: nat) {
    forall i :: 0 <= i < |steps| && steps[i].GetCafes? ==> RootZoom(p, steps[i].viewport) == z
  }

  lemma StepKeepsLevel(p: Projection, served: Served, cafes: Catalogue, s: Provider, step: Step, z: nat)
    requires p.Mercator() && Inv(p, served, s) && Serves(served, cafes) && Answering(p, cafes, s) && Level(p, s, z)
    requires Enabled(p, served, s, step) && !step.Reject? && (step.GetCafes? ==> RootZoom(p, step.viewport) == z)
    ensures Level(p, Next(p, served, s, step), z)
  {
    hide Inv, Dense, RootZoom, ValidTile, WithinSome, IsReply, VisitNode, ReceiveReply, Puts, TileBounds;
    hide Answering, Reaches, RootRange;
    match step
    case GetCafes(viewport, roots) =>
      RootRangeRows(p, viewport);
      NewCallLevel(p, Call(viewport, roots, RootNodes(roots), {VersionLabel(s.version)}), z);
    case Visit(call, index) =>
      var put := VisitPuts(p, cafes, s, call, index);
      TileStepKeepsLevel(p, cafes, s, VisitNode(s, call, index), call, index, put, z);
    case Receive(call, index, reply) =>
      var put := ReceivePuts(p, served, cafes, s, call, index, reply);
      TileStepKeepsLevel(p, cafes, s, ReceiveReply(s, call, index, reply), call, index, put, z);
    case SetCacheVersion(version) =>
      forall i | 0 <= i < |s.calls|
        ensures LevelCall(p, ChangeVersion(s, version).calls[i], z)
      {
        assert LevelCall(p, s.calls[i], z);
        SameReach(s.calls[i], ChangeVersion(s, version).calls[i], z + 6);
      }
    case Tick(now) =>
  }

  lemma SameReach(c: Call, d: Call, z: nat)
    requires Reaches(c, z) && c.frontier == d.frontier && c.roots == d.roots
    ensures Reaches(d, z)
  {
  }

  lemma {:induction false} RunKeepsLevel(
      p: Projection, served: Served, cafes: Catalogue, s: Provider, steps: seq<Step>, z: nat)
    requires p.Mercator() && Inv(p, served, s) && Serves(served, cafes) && Answering(p, cafes, s) && Level(p, s, z)
    requires IsRun(p, served, s, steps) && NoReject(steps) && AllAtZoom(p, steps, z)
    ensures Level(p, After(p, served, s, steps), z)
    decreases |steps|
  {
    hide Inv, Answering, Level, Next, Enabled, RootZoom;
    if steps != [] {
      NextKeepsInv(p, served, s, steps[0]);
      StepKeepsAnswering(p, served, cafes, s, steps[0]);
      StepKeepsLevel(p, served, cafes, s, steps[0], z);
      RunKeepsLevel(p, served, cafes, Next(p, served, s, steps[0]), steps[1..], z);
    }
  }

  lemma DenseStaysUnanswered(p: Projection, cafes: Catalogue, c: Call, z: nat)
    requires p.Mercator() && LevelCall(p, c, z) && CallFits(p, cafes, c) && TooDense(p, cafes, c)
    requires forall n :: n in c.frontier ==> ValidTile(n.tile)
    requires forall tile: Tile :: tile.z == z + 6 && WithinSome(tile, c.roots) ==> ValidTile(tile)
    ensures !Returned(c)
  {
    hide Dense, RootZoom, ValidTile, WithinSome;
    var deep: Tile :| deep.z == RootZoom(p, c.viewport) + 6 && WithinSome(deep, c.roots) && Dense(p, cafes, deep);
    assert InsideSome(deep, c.frontier);
    var n :| n in c.frontier && Within(deep, n.tile);
    AncestorIsDense(p, cafes, deep, n.tile.z);
    assert Fits(p, cafes, c, n);
  }

  lemma {:induction false} DescendantIsValid(tile: Tile, z: nat)
    requires z <= tile.z && ValidTile(Ascend(tile, z))
    ensures ValidTile(tile)
    decreases tile.z
  {
    if tile.z > z {
      DescendantIsValid(Parent(tile), z);
      assert Pow2(tile.z) == 2 * Pow2(Parent(tile).z);
    }
  }

  /**
   With calls of one root zoom, whatever else happens, a call that nothing rejects and that has no tile under way
   has answered if and only if no tile of it six zooms below its root tiles has more than 5000 active cafes.
   */
  lemma FinishedCallAnswersExactly(
      p: Projection, served: Served, cafes: Catalogue, steps: seq<Step>, call: nat, z: nat)
    requires p.Mercator() && Serves(served, cafes) && IsRun(p, served, INITIAL, steps) && NoReject(steps)
    requires AllAtZoom(p, steps, z)
    requires call < |After(p, served, INITIAL, steps).calls| && Finished(After(p, served, INITIAL, steps).calls[call])
    ensures var c := After(p, served, INITIAL, steps).calls[call];
            Returned(c) <==> !TooDense(p, cafes, c)
  {
    hide After, IsRun, Fits, TooDense, AllAtZoom, Returned, ValidTile, RootZoom, Reaches;
    FinishedCallAnswers(p, served, cafes, steps, call);
    var s := After(p, served, INITIAL, steps);
    var c := s.calls[call];
    if TooDense(p, cafes, c) {
      InitialAnswers(p, served, cafes);
      RunKeepsAnswering(p, served, cafes, INITIAL, steps);
      assert Level(p, INITIAL, z);
      RunKeepsLevel(p, served, cafes, INITIAL, steps, z);
      EveryRunKeepsInv(p, served, INITIAL, steps);
      RunKeepsRoots(p, served, INITIAL, steps);
      assert CallOk(p, served, s.version, c);
      assert c in s.calls;
      forall tile: Tile | tile.z == z + 6 && WithinSome(tile, c.roots)
        ensures ValidTile(tile)
      {
        var r :| r in c.roots && Within(tile, r);
        DescendantIsValid(tile, r.z);
      }
      DenseStaysUnanswered(p, cafes, c, z);
    }
  }

  // ---------------------------------------------------------------------------------------
  // A call can always go on without being rejected
  // ---------------------------------------------------------------------------------------

  lemma {:induction false} LargestId(cafes: set<Cafe>) returns (last: Cafe)
    requires cafes != {}
    ensures last in cafes && forall c :: c in cafes ==> c.id <= last.id
    decreases cafes
  {
    last :| last in cafes;
    if cafes != {last} {
      var other := LargestId(cafes - {last});
      if other.id > last.id { last := other; }
    }
  }

  lemma {:induction false} ListingExists(cafes: set<Cafe>) returns (items: seq<Cafe>)
    requires KeyedById(cafes)
    ensures Lists(items, cafes)
    decreases cafes
  {
    if cafes == {} {
      items := [];
    } else {
      var last := LargestId(cafes);
      var before := ListingExists(cafes - {last});
      items := before + [last];
      forall i, j | 0 <= i < j < |items|
        ensures items[i].id < items[j].id
      {
        assert items[i] == before[i] && before[i] in before;
      }
    }
  }

  /** The server has a reply to every request over a table keyed by id. */
  lemma ReplyExists(cafes: Catalogue, box: Viewport) returns (reply: Reply)
    requires KeyedById(cafes)
    ensures IsReply(cafes, box, reply)
  {
    if |Matching(cafes, box)| > MAX_CAFES_PER_VIEWPORT {
      reply := Reply([], true);
    } else {
      var items := ListingExists(Matching(cafes, box));
      reply := Reply(items, false);
    }
  }

  /** Whatever state a client is in, an unfinished tile can be visited or answered. */
  lemma UnfinishedTileGoesOn(p: Projection, served: Served, s: Provider, call: nat, index: nat) returns (step: Step)
    requires HasNode(s, call, index) && Unfinished(s.calls[call].frontier[index])
    requires forall v: Version :: KeyedById(served(v))
    ensures Enabled(p, served, s, step) && OnTile(step) && !step.Reject?
    ensures step.call == call && step.index == index
  {
    var n := s.calls[call].frontier[index];
    if n.Pending? {
      step := Visit(call, index);
    } else {
      var reply := ReplyExists(served(n.version), TileBounds(p, n.tile));
      step := Receive(call, index, reply);
    }
  }
}
