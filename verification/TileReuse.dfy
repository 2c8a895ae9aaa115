/**
 What the map client does not ask for again (`getTileFeatures` and `setCacheVersion` in
 frontend/src/cafe-provider.ts): a tile answered within the last minute, and a tile known to be too dense.
 */
module TileReuse {
  import opened CafeSummaries
  import opened Outcomes
  import opened TileCache
  import opened TileGeometry
  import opened TileProvider

  // ---------------------------------------------------------------------------------------
  // The uses of the cache in a run
  // ---------------------------------------------------------------------------------------

  ghost function UsesOf(p: Projection, served: Served, s: Provider, step: Step): seq<Use>
    requires Enabled(p, served, s, step)
  {
    match step
    case Visit(call, index) =>
      [Use.Read(TileKey(VersionLabel(s.version), s.calls[call].frontier[index].tile), s.now)]
    case Receive(call, index, reply) =>
      var n := s.calls[call].frontier[index];
      if reply.truncated then [] else [Store(TileKey(VersionLabel(n.version), n.tile), reply.items, s.now)]
    case SetCacheVersion(version) => if version == s.version then [] else [Clear]
    case _ => []
  }

  ghost function AllUses(p: Projection, served: Served, s: Provider, steps: seq<Step>): seq<Use>
    requires IsRun(p, served, s, steps)
    decreases |steps|
  {
    if steps == [] then []
    else UsesOf(p, served, s, steps[0]) + AllUses(p, served, Next(p, served, s, steps[0]), steps[1..])
  }

  lemma StepUsesCache(p: Projection, served: Served, s: Provider, step: Step, history: seq<Use>)
    requires Enabled(p, served, s, step) && s.cache == Replay(history)
    ensures Next(p, served, s, step).cache == Replay(history + UsesOf(p, served, s, step))
  {
    hide AfterRead, AfterStore, ReadValue, RootTiles, IsReply, TileBounds, Children;
    var uses := UsesOf(p, served, s, step);
    if uses == [] {
      assert history + uses == history;
    } else {
      OneMoreUse(history, uses[0], TileKey("", Tile(0, 0, 0)));
    }
  }

  /** The cache of a run is the cache of the history of its uses. */
  lemma {:induction false} RunUsesCache(
      p: Projection, served: Served, s: Provider, steps: seq<Step>, history: seq<Use>)
    requires IsRun(p, served, s, steps) && s.cache == Replay(history)
    ensures After(p, served, s, steps).cache == Replay(history + AllUses(p, served, s, steps))
    decreases |steps|
  {
    hide Next, Enabled, Replay, UsesOf;
    if steps == [] {
      assert history + AllUses(p, served, s, steps) == history;
    } else {
      var t, uses := Next(p, served, s, steps[0]), UsesOf(p, served, s, steps[0]);
      StepUsesCache(p, served, s, steps[0], history);
      RunUsesCache(p, served, t, steps[1..], history + uses);
      var rest := AllUses(p, served, t, steps[1..]);
      assert (history + uses) + rest == history + (uses + rest);
    }
  }

  // ---------------------------------------------------------------------------------------
  // A tile answered within the last minute
  // ---------------------------------------------------------------------------------------

  /** Steps that leave the data version alone, stay before the moment, and do not answer the tile again. */
  ghost predicate Within(p: Projection, served: Served, s: Provider, steps: seq<Step>, tile: Tile, end: int)
    requires IsRun(p, served, s, steps)
    decreases |steps|
  {
    s.now < end
    && (steps != [] ==>
          && (steps[0].SetCacheVersion? ==> steps[0].version == s.version)
          && (steps[0].Receive? ==> s.calls[steps[0].call].frontier[steps[0].index].tile != tile)
          && Within(p, served, Next(p, served, s, steps[0]), steps[1..], tile, end))
  }

  lemma {:induction false} WithinLeavesKey(
      p: Projection, served: Served, s: Provider, steps: seq<Step>, key: TileKey, end: int)
    requires IsRun(p, served, s, steps) && Within(p, served, s, steps, key.tile, end)
    ensures LeavesKey(AllUses(p, served, s, steps), key, end)
    ensures After(p, served, s, steps).version == s.version && After(p, served, s, steps).now < end
    decreases |steps|
  {
    hide VisitNode, ReceiveReply, IsReply, RootTiles;
    if steps != [] {
      StepKeepsVersion(p, served, s, steps[0]);
      WithinLeavesKey(p, served, Next(p, served, s, steps[0]), steps[1..], key, end);
    }
  }

  lemma StepKeepsVersion(p: Projection, served: Served, s: Provider, step: Step)
    requires Enabled(p, served, s, step) && (step.SetCacheVersion? ==> step.version == s.version)
    ensures Next(p, served, s, step).version == s.version
  {
  }

  /**
   For a minute after a complete answer, a call that comes to the tile at the same data version has that answer at
   once, without a request: as long as fewer than 160 other tiles are looked up or answered meanwhile.
   */
  lemma RecentAnswerIsReused(
      p: Projection, served: Served, s: Provider, history: seq<Use>, call: nat, index: nat, reply: Reply,
      since: seq<Step>, later: nat, at: nat)
    requires s.cache == Replay(history) && Enabled(p, served, s, Receive(call, index, reply)) && !reply.truncated
    requires s.calls[call].frontier[index].version == s.version
    requires var t := Next(p, served, s, Receive(call, index, reply));
             var n := s.calls[call].frontier[index];
             && IsRun(p, served, t, since) && Within(p, served, t, since, n.tile, s.now + 60_000)
             && |OtherKeys(AllUses(p, served, t, since), TileKey(VersionLabel(s.version), n.tile))| < 160
             && var u := After(p, served, t, since);
                Enabled(p, served, u, Visit(later, at)) && u.calls[later].frontier[at].tile == n.tile
    ensures var n := s.calls[call].frontier[index];
            var u := After(p, served, Next(p, served, s, Receive(call, index, reply)), since);
            Next(p, served, u, Visit(later, at)).calls[later].frontier[at] == Done(n.tile, reply.items)
  {
    hide Replay, After, IsRun, Within, AllUses, OtherKeys, IsReply, AfterStore, AfterRead, ReadValue, LeavesKey;
    var receive := Receive(call, index, reply);
    var n, t := s.calls[call].frontier[index], Next(p, served, s, receive);
    var key := TileKey(VersionLabel(s.version), n.tile);
    var store := Store(key, reply.items, s.now);
    assert UsesOf(p, served, s, receive) == [store];
    StepUsesCache(p, served, s, receive, history);
    RunUsesCache(p, served, t, since, history + [store]);
    WithinLeavesKey(p, served, t, since, key, s.now + 60_000);
    var u := After(p, served, t, since);
    assert u.version == s.version;
    StoredTileIsServedForAMinute(history, key, reply.items, s.now, AllUses(p, served, t, since), u.now);
    VisitServes(u, later, at, reply.items);
  }

  lemma VisitServes(s: Provider, call: nat, index: nat, features: seq<Cafe>)
    requires HasNode(s, call, index) && s.calls[call].frontier[index].Pending?
    requires var tile := s.calls[call].frontier[index].tile;
             ReadValue(s.cache, TileKey(VersionLabel(s.version), tile), s.now) == Some(features)
    ensures VisitNode(s, call, index).calls[call].frontier[index]
         == Done(s.calls[call].frontier[index].tile, features)
  {
    hide ReadValue, AfterRead;
  }

  /** Every state a client can reach has such a history. */
  lemma ReachableHasHistory(p: Projection, served: Served, steps: seq<Step>)
    requires IsRun(p, served, INITIAL, steps)
    ensures After(p, served, INITIAL, steps).cache == Replay(AllUses(p, served, INITIAL, steps))
  {
    hide Next, Enabled, AllUses;
    RunUsesCache(p, served, INITIAL, steps, []);
    assert [] + AllUses(p, served, INITIAL, steps) == AllUses(p, served, INITIAL, steps);
  }

  // ---------------------------------------------------------------------------------------
  // A tile known to be too dense
  // ---------------------------------------------------------------------------------------

  predicate KeepsVersion(steps: seq<Step>, version: Version) {
    forall i :: 0 <= i < |steps| && steps[i].SetCacheVersion? ==> steps[i].version == version
  }

  lemma {:induction false} SplitsAreKept(p: Projection, served: Served, s: Provider, steps: seq<Step>, tile: Tile)
    requires IsRun(p, served, s, steps) && KeepsVersion(steps, s.version) && tile in s.splitTiles
    ensures tile in After(p, served, s, steps).splitTiles
    decreases |steps|
  {
    hide IsReply, RootTiles, AfterRead, AfterStore, ReadValue, TileBounds;
    if steps != [] {
      StepKeepsVersion(p, served, s, steps[0]);
      SplitsAreKept(p, served, Next(p, served, s, steps[0]), steps[1..], tile);
    }
  }

  /** A tile that a truncated answer has split is not asked for again before the data version changes. */
  lemma SplitTileIsNotAskedForAgain(
      p: Projection, served: Served, s: Provider, call: nat, index: nat, reply: Reply, since: seq<Step>,
      later: nat, at: nat)
    requires Enabled(p, served, s, Receive(call, index, reply)) && reply.truncated
    requires s.calls[call].frontier[index].depth < 6
    requires var t := Next(p, served, s, Receive(call, index, reply));
             && IsRun(p, served, t, since) && KeepsVersion(since, s.version)
             && var u := After(p, served, t, since);
                && Enabled(p, served, u, Visit(later, at))
                && u.calls[later].frontier[at].tile == s.calls[call].frontier[index].tile
    ensures var u := After(p, served, Next(p, served, s, Receive(call, index, reply)), since);
            !Next(p, served, u, Visit(later, at)).calls[later].frontier[at].InFlight?
  {
    hide After, IsRun, IsReply, AfterRead, ReadValue;
    var t := Next(p, served, s, Receive(call, index, reply));
    SplitsAreKept(p, served, t, since, s.calls[call].frontier[index].tile);
  }

  /** A change of the data version forgets every answer and every split; naming the same version changes nothing. */
  lemma VersionChangeForgets(p: Projection, served: Served, s: Provider, version: Version)
    ensures var t := Next(p, served, s, SetCacheVersion(version));
            if version == s.version then t == s
            else
              && t.version == version && t.splitTiles == {}
              && forall key, now :: ReadValue(t.cache, key, now) == None
  {
  }
}
