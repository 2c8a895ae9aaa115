/**
 The in-memory tile cache of the map client (frontend/src/cafe-provider.ts): a JavaScript
 Map used as a least-recently-used list with a time to live.

 `Entries` is the Map: its items in insertion order.  The class mutates it in place; the
 functions say what each operation does to the value, and the lemmas say what that amounts
 to over whole histories.
 */
module TileCache {
  import opened CafeSummaries
  import opened Outcomes
  import opened TileGeometry

  const TILE_CACHE_TTL_MS := 60_000
  const MAX_CACHED_TILES := 160

  /** The cache key: the data version label and the tile. */
  datatype TileKey = TileKey(versionLabel: string, tile: Tile)

  datatype Entry = Entry(key: TileKey, expiresAtMs: int, features: seq<Cafe>)

  type Entries = seq<Entry>

  ghost predicate DistinctKeys(s: Entries) {
    forall i, j :: 0 <= i < j < |s| ==> s[i].key != s[j].key
  }

  predicate HasKey(s: Entries, key: TileKey) {
    exists i :: 0 <= i < |s| && s[i].key == key
  }

  /** `Map.delete`: drop the item with this key, keep the order of the others. */
  function Delete(s: Entries, key: TileKey): (r: Entries)
    ensures |r| <= |s|
  {
    if s == [] then [] else if s[0].key == key then s[1..] else [s[0]] + Delete(s[1..], key)
  }

  /** `Map.get`. */
  function Lookup(s: Entries, key: TileKey): Option<Entry> {
    if s == [] then None else if s[0].key == key then Some(s[0]) else Lookup(s[1..], key)
  }

  /** Drop the oldest items until at most `MAX_CACHED_TILES` remain. */
  function Evict(s: Entries): (r: Entries) {
    if |s| > MAX_CACHED_TILES then s[|s| - MAX_CACHED_TILES..] else s
  }

  function ReadValue(s: Entries, key: TileKey, now: int): Option<seq<Cafe>> {
    match Lookup(s, key)
    case None => None
    case Some(e) => if e.expiresAtMs <= now then None else Some(e.features)
  }

  function AfterRead(s: Entries, key: TileKey, now: int): Entries {
    match Lookup(s, key)
    case None => s
    case Some(e) => if e.expiresAtMs <= now then Delete(s, key) else Delete(s, key) + [e]
  }

  function AfterStore(s: Entries, key: TileKey, features: seq<Cafe>, now: int): Entries {
    Evict(Delete(s, key) + [Entry(key, now + TILE_CACHE_TTL_MS, features)])
  }

  class Cache {
    var entries: Entries

    constructor ()
      ensures entries == []
    {
      entries := [];
    }

    method Find(key: TileKey) returns (index: int)
      ensures -1 <= index < |entries|
      ensures index == -1 ==> Lookup(entries, key) == None && Delete(entries, key) == entries
      ensures index >= 0 ==> Lookup(entries, key) == Some(entries[index])
                             && Delete(entries, key) == entries[..index] + entries[index + 1..]
    {
      index := 0;
      while index < |entries|
        invariant 0 <= index <= |entries|
        invariant forall i :: 0 <= i < index ==> entries[i].key != key
      {
        if entries[index].key == key {
          FirstAt(entries, key, index);
          return;
        }
        index := index + 1;
      }
      Nowhere(entries, key);
      index := -1;
    }

    /** A live item moves to the young end; an expired one is dropped and not served. */
    method ReadCachedTile(key: TileKey, now: int) returns (features: Option<seq<Cafe>>)
      requires DistinctKeys(entries)
      modifies this
      ensures features == ReadValue(old(entries), key, now)
      ensures entries == AfterRead(old(entries), key, now)
      ensures DistinctKeys(entries) && |entries| <= old(|entries|)
    {
      DeleteKeepsOrder(entries, key);
      var index := Find(key);
      if index == -1 { return None; }
      var cached := entries[index];
      entries := entries[..index] + entries[index + 1..];
      if cached.expiresAtMs <= now { return None; }
      entries := entries + [cached];
      features := Some(cached.features);
    }

    /** The new item becomes the youngest; the oldest ones are dropped down to the capacity. */
    method CacheTile(key: TileKey, features: seq<Cafe>, now: int)
      requires DistinctKeys(entries)
      modifies this
      ensures entries == AfterStore(old(entries), key, features, now)
      ensures DistinctKeys(entries) && |entries| <= MAX_CACHED_TILES
    {
      DeleteKeepsOrder(entries, key);
      var index := Find(key);
      hide Delete, Lookup;
      if index != -1 {
        entries := entries[..index] + entries[index + 1..];
      }
      assert entries == Delete(old(entries), key);
      AppendKeepsDistinct(entries, Entry(key, now + TILE_CACHE_TTL_MS, features));
      entries := entries + [Entry(key, now + TILE_CACHE_TTL_MS, features)];
      EvictOldest();
    }

    method EvictOldest()
      requires DistinctKeys(entries)
      modifies this
      ensures entries == Evict(old(entries))
      ensures DistinctKeys(entries) && |entries| <= MAX_CACHED_TILES
    {
      SuffixKeepsDistinct(entries, |entries| - |Evict(entries)|);
      ghost var dropped := 0;
      while |entries| > MAX_CACHED_TILES
        invariant 0 <= dropped <= |old(entries)| && entries == old(entries)[dropped..]
        invariant dropped == 0 || |entries| >= MAX_CACHED_TILES
      {
        entries := entries[1..];
        dropped := dropped + 1;
      }
    }

    method Clear()
      modifies this
      ensures entries == []
    {
      entries := [];
    }
  }

  lemma {:induction false} FirstAt(s: Entries, key: TileKey, index: nat)
    requires index < |s| && s[index].key == key && forall i :: 0 <= i < index ==> s[i].key != key
    ensures Lookup(s, key) == Some(s[index])
    ensures Delete(s, key) == s[..index] + s[index + 1..]
  {
    if index > 0 {
      var rest := s[1..];
      FirstAt(rest, key, index - 1);
      hide Lookup;
      assert [s[0]] + (rest[..index - 1] + rest[index..]) == s[..index] + s[index + 1..];
    }
  }

  lemma {:induction false} Nowhere(s: Entries, key: TileKey)
    requires forall i :: 0 <= i < |s| ==> s[i].key != key
    ensures Lookup(s, key) == None && Delete(s, key) == s
  {
    if s != [] {
      Nowhere(s[1..], key);
      assert s == [s[0]] + s[1..];
    }
  }

  /** Deleting a key keeps every other item, in order, and nothing else. */
  lemma {:induction false} DeleteKeepsOrder(s: Entries, key: TileKey)
    requires DistinctKeys(s)
    ensures DistinctKeys(Delete(s, key))
    ensures forall e :: e in Delete(s, key) <==> e in s && e.key != key
    ensures Lookup(s, key).Some? ==> Lookup(s, key).value in s && Lookup(s, key).value.key == key
    ensures Lookup(s, key) == None ==> forall e :: e in s ==> e.key != key
  {
    if s == [] {
    } else {
      var rest := s[1..];
      assert s == [s[0]] + rest;
      HeadIsNew(s);
      DeleteKeepsOrder(rest, key);
      if s[0].key != key {
        PrependKeepsDistinct(s[0], Delete(rest, key));
      }
    }
  }

  lemma HeadIsNew(s: Entries)
    requires DistinctKeys(s) && s != []
    ensures DistinctKeys(s[1..])
    ensures forall e :: e in s[1..] ==> e.key != s[0].key
  {
    forall e | e in s[1..]
      ensures e.key != s[0].key
    {
      var i :| 0 <= i < |s[1..]| && s[1..][i] == e;
      assert s[i + 1] == e;
    }
  }

  lemma PrependKeepsDistinct(e: Entry, s: Entries)
    requires DistinctKeys(s) && forall d :: d in s ==> d.key != e.key
    ensures DistinctKeys([e] + s)
  {
  }

  lemma SuffixKeepsDistinct(s: Entries, k: nat)
    requires DistinctKeys(s) && k <= |s|
    ensures DistinctKeys(s[k..])
  {
  }

  lemma AppendKeepsDistinct(s: Entries, e: Entry)
    requires DistinctKeys(s) && forall d :: d in s ==> d.key != e.key
    ensures DistinctKeys(s + [e])
  {
  }

  /** A lookup serves an item that is there, and adds nothing. */
  lemma ReadServesAnItem(s: Entries, key: TileKey, now: int)
    requires DistinctKeys(s)
    ensures DistinctKeys(AfterRead(s, key, now)) && |AfterRead(s, key, now)| <= |s|
    ensures forall e :: e in AfterRead(s, key, now) ==> e in s
    ensures ReadValue(s, key, now).Some? ==>
              exists e :: e in s && e.key == key && e.features == ReadValue(s, key, now).value && now < e.expiresAtMs
  {
    DeleteKeepsOrder(s, key);
    if Lookup(s, key).Some? {
      DeleteShrinks(s, key);
      AppendKeepsDistinct(Delete(s, key), Lookup(s, key).value);
    }
  }

  /** A store adds one item at most and never exceeds the capacity. */
  lemma StoreAddsAnItem(s: Entries, key: TileKey, features: seq<Cafe>, now: int)
    requires DistinctKeys(s)
    ensures DistinctKeys(AfterStore(s, key, features, now)) && |AfterStore(s, key, features, now)| <= MAX_CACHED_TILES
    ensures forall e :: e in AfterStore(s, key, features, now) ==>
                          e in s || e == Entry(key, now + TILE_CACHE_TTL_MS, features)
  {
    DeleteKeepsOrder(s, key);
    hide Delete, Lookup;
    var grown := Delete(s, key) + [Entry(key, now + TILE_CACHE_TTL_MS, features)];
    AppendKeepsDistinct(Delete(s, key), Entry(key, now + TILE_CACHE_TTL_MS, features));
    SuffixKeepsDistinct(grown, |grown| - |Evict(grown)|);
  }

  // ---------------------------------------------------------------------------------------
  // Histories
  // ---------------------------------------------------------------------------------------

  /** One use of the cache: a lookup, a store, or the clearing done by a version change. */
  datatype Use = Read(key: TileKey, now: int) | Store(key: TileKey, features: seq<Cafe>, now: int) | Clear

  ghost function AfterUse(s: Entries, use: Use): Entries {
    match use
    case Read(key, now) => AfterRead(s, key, now)
    case Store(key, features, now) => AfterStore(s, key, features, now)
    case Clear => []
  }

  /** The cache after a history that starts from an empty one. */
  ghost function Replay(uses: seq<Use>): Entries {
    if uses == [] then [] else AfterUse(Replay(uses[..|uses| - 1]), uses[|uses| - 1])
  }

  /** The use touches the key: it stores it, or finds it alive. */
  ghost predicate Touches(s: Entries, use: Use, key: TileKey) {
    match use
    case Read(k, now) => k == key && ReadValue(s, key, now).Some?
    case Store(k, _, _) => k == key
    case Clear => false
  }

  /** The position in the history of the most recent use that touched the key, or -1. */
  ghost function LastTouch(uses: seq<Use>, key: TileKey): int {
    if uses == [] then -1
    else
      var before := uses[..|uses| - 1];
      if Touches(Replay(before), uses[|uses| - 1], key) then |uses| - 1 else LastTouch(before, key)
  }

  /** The item the most recent store of the key put in. */
  ghost function LastStore(uses: seq<Use>, key: TileKey): Option<Entry> {
    if uses == [] then None
    else
      var last := uses[|uses| - 1];
      if last.Store? && last.key == key then Some(Entry(key, last.now + TILE_CACHE_TTL_MS, last.features))
      else LastStore(uses[..|uses| - 1], key)
  }

  /** Map order is recency order. */
  ghost predicate InRecencyOrder(s: Entries, uses: seq<Use>) {
    forall i, j :: 0 <= i < j < |s| ==> LastTouch(uses, s[i].key) < LastTouch(uses, s[j].key)
  }

  /** Every item is the last one stored under its key, and the items are in recency order. */
  ghost predicate Accounts(s: Entries, uses: seq<Use>) {
    && DistinctKeys(s)
    && InRecencyOrder(s, uses)
    && (forall e :: e in s ==> LastTouch(uses, e.key) < |uses| && LastStore(uses, e.key) == Some(e))
  }

  ghost predicate HistoryInvariant(uses: seq<Use>) {
    Accounts(Replay(uses), uses) && |Replay(uses)| <= MAX_CACHED_TILES
  }

  lemma {:induction false} EveryHistoryKeepsInvariant(uses: seq<Use>)
    ensures HistoryInvariant(uses)
  {
    if uses == [] {
    } else {
      var before, use := uses[..|uses| - 1], uses[|uses| - 1];
      EveryHistoryKeepsInvariant(before);
      UseKeepsInvariant(before, use);
      assert uses == before + [use];
    }
  }

  lemma OneMoreUse(before: seq<Use>, use: Use, key: TileKey)
    ensures Replay(before + [use]) == AfterUse(Replay(before), use)
    ensures LastTouch(before + [use], key) ==
            if Touches(Replay(before), use, key) then |before| else LastTouch(before, key)
    ensures LastStore(before + [use], key) ==
            if use.Store? && use.key == key then Some(Entry(key, use.now + TILE_CACHE_TTL_MS, use.features))
            else LastStore(before, key)
  {
    assert (before + [use])[..|before|] == before;
  }

  lemma DeleteAccounts(s: Entries, uses: seq<Use>, key: TileKey)
    requires Accounts(s, uses)
    ensures Accounts(Delete(s, key), uses)
  {
    DeleteKeepsOrder(s, key);
    DeleteIsSubsequence(s, uses, key);
  }

  /** Items whose keys a use does not name are accounted for as before. */
  lemma OthersAccounts(s: Entries, before: seq<Use>, use: Use)
    requires Accounts(s, before)
    requires forall e :: e in s ==> !use.Clear? && use.key != e.key
    ensures Accounts(s, before + [use])
    ensures forall e :: e in s ==> LastTouch(before + [use], e.key) < |before|
  {
    hide Replay, LastTouch, LastStore, Delete, Lookup;
    forall i | 0 <= i < |s|
      ensures LastTouch(before + [use], s[i].key) == LastTouch(before, s[i].key)
      ensures LastStore(before + [use], s[i].key) == LastStore(before, s[i].key)
    {
      assert s[i] in s;
      OneMoreUse(before, use, s[i].key);
    }
  }

  /** The item just touched goes last. */
  lemma YoungestAccounts(s: Entries, uses: seq<Use>, e: Entry)
    requires Accounts(s, uses)
    requires forall d :: d in s ==> d.key != e.key && LastTouch(uses, d.key) < LastTouch(uses, e.key)
    requires LastTouch(uses, e.key) < |uses| && LastStore(uses, e.key) == Some(e)
    ensures Accounts(s + [e], uses)
  {
    hide Replay, LastTouch, LastStore;
    AppendKeepsDistinct(s, e);
    forall i | 0 <= i < |s|
      ensures LastTouch(uses, s[i].key) < LastTouch(uses, e.key)
    {
      assert s[i] in s;
    }
    AppendKeepsRecency(s, uses, e);
    forall d | d in s + [e]
      ensures LastTouch(uses, d.key) < |uses| && LastStore(uses, d.key) == Some(d)
    {
      assert d in s || d == e;
    }
  }

  lemma AppendKeepsRecency(s: Entries, uses: seq<Use>, e: Entry)
    requires InRecencyOrder(s, uses)
    requires forall i :: 0 <= i < |s| ==> LastTouch(uses, s[i].key) < LastTouch(uses, e.key)
    ensures InRecencyOrder(s + [e], uses)
  {
    hide LastTouch;
  }

  lemma EvictAccounts(s: Entries, uses: seq<Use>)
    requires Accounts(s, uses)
    ensures Accounts(Evict(s), uses) && |Evict(s)| <= MAX_CACHED_TILES
  {
    hide Replay, LastTouch, LastStore;
  }

  /** Before eviction, a store accounts for one item more: the new one, last. */
  lemma StoreGrows(before: seq<Use>, key: TileKey, features: seq<Cafe>, now: int)
    requires HistoryInvariant(before)
    ensures Accounts(Delete(Replay(before), key) + [Entry(key, now + TILE_CACHE_TTL_MS, features)],
                     before + [Store(key, features, now)])
  {
    hide Delete, Replay, LastStore, LastTouch, Lookup, InRecencyOrder;
    var kept, use := Delete(Replay(before), key), Store(key, features, now);
    OneMoreUse(before, use, key);
    DeleteKeepsOrder(Replay(before), key);
    DeleteAccounts(Replay(before), before, key);
    OthersAccounts(kept, before, use);
    YoungestAccounts(kept, before + [use], Entry(key, now + TILE_CACHE_TTL_MS, features));
  }

  lemma UseKeepsInvariant(before: seq<Use>, use: Use)
    requires HistoryInvariant(before)
    ensures HistoryInvariant(before + [use])
  {
    match use
    case Clear =>
      OneMoreUse(before, use, TileKey("", Tile(0, 0, 0)));
    case Read(key, now) =>
      ReadKeepsInvariant(before, key, now);
    case Store(key, features, now) =>
      StoreKeepsInvariant(before, key, features, now);
  }

  lemma StoreKeepsInvariant(before: seq<Use>, key: TileKey, features: seq<Cafe>, now: int)
    requires HistoryInvariant(before)
    ensures HistoryInvariant(before + [Store(key, features, now)])
  {
    var use := Store(key, features, now);
    StoreGrows(before, key, features, now);
    OneMoreUse(before, use, key);
    hide Delete, Replay, LastStore, LastTouch;
    EvictAccounts(Delete(Replay(before), key) + [Entry(key, now + TILE_CACHE_TTL_MS, features)], before + [use]);
  }

  lemma ReadKeepsInvariant(before: seq<Use>, key: TileKey, now: int)
    requires HistoryInvariant(before)
    ensures HistoryInvariant(before + [Read(key, now)])
  {
    var use, s := Read(key, now), Replay(before);
    var uses := before + [use];
    OneMoreUse(before, use, key);
    DeleteKeepsOrder(s, key);
    DeleteAccounts(s, before, key);
    if Lookup(s, key) == None {
      OthersAccounts(s, before, use);
    } else {
      OthersAccounts(Delete(s, key), before, use);
      if ReadValue(s, key, now).Some? {
        YoungestAccounts(Delete(s, key), uses, Lookup(s, key).value);
      }
      DeleteShrinks(s, key);
    }
  }

  lemma {:induction false} DeleteShrinks(s: Entries, key: TileKey)
    requires Lookup(s, key).Some?
    ensures |Delete(s, key)| == |s| - 1
  {
    if s[0].key != key {
      DeleteShrinks(s[1..], key);
    }
  }

  lemma {:induction false} DeleteIsSubsequence(s: Entries, uses: seq<Use>, key: TileKey)
    requires DistinctKeys(s) && InRecencyOrder(s, uses)
    ensures InRecencyOrder(Delete(s, key), uses)
  {
    hide Replay, LastTouch, LastStore;
    if s == [] {
    } else {
      HeadIsOldest(s, uses);
      if s[0].key != key {
        HeadIsNew(s);
        DeleteIsSubsequence(s[1..], uses, key);
        DeleteKeepsOrder(s[1..], key);
        PrependKeepsRecency(s[0], Delete(s[1..], key), uses);
      }
    }
  }

  lemma HeadIsOldest(s: Entries, uses: seq<Use>)
    requires s != [] && InRecencyOrder(s, uses)
    ensures InRecencyOrder(s[1..], uses)
    ensures forall d :: d in s[1..] ==> LastTouch(uses, s[0].key) < LastTouch(uses, d.key)
  {
    hide Replay, LastTouch;
    forall d | d in s[1..]
      ensures LastTouch(uses, s[0].key) < LastTouch(uses, d.key)
    {
      var i :| 0 <= i < |s[1..]| && s[1..][i] == d;
      assert s[i + 1] == d;
    }
  }

  lemma PrependKeepsRecency(e: Entry, s: Entries, uses: seq<Use>)
    requires InRecencyOrder(s, uses)
    requires forall d :: d in s ==> LastTouch(uses, e.key) < LastTouch(uses, d.key)
    ensures InRecencyOrder([e] + s, uses)
  {
    hide Replay, LastTouch;
    forall j | 0 <= j < |s|
      ensures LastTouch(uses, e.key) < LastTouch(uses, s[j].key)
    {
      assert s[j] in s;
    }
  }

  /**
   Whatever a lookup serves is what was last stored under exactly that key, and it has
   not expired.
   */
  lemma ServedValueIsLastStored(uses: seq<Use>, key: TileKey, now: int)
    ensures ReadValue(Replay(uses), key, now).Some? ==>
              && LastStore(uses, key).Some?
              && LastStore(uses, key).value.features == ReadValue(Replay(uses), key, now).value
              && now < LastStore(uses, key).value.expiresAtMs
  {
    EveryHistoryKeepsInvariant(uses);
    DeleteKeepsOrder(Replay(uses), key);
  }

  /** A store evicts only keys used less recently than every key it keeps. */
  lemma EvictionIsLeastRecentlyUsed(
      uses: seq<Use>, key: TileKey, features: seq<Cafe>, now: int, gone: TileKey, kept: TileKey)
    requires HasKey(Replay(uses), gone) && gone != key
    requires !HasKey(AfterStore(Replay(uses), key, features, now), gone)
    requires HasKey(AfterStore(Replay(uses), key, features, now), kept)
    ensures var after := uses + [Store(key, features, now)];
            LastTouch(after, gone) < LastTouch(after, kept)
    ensures |AfterStore(Replay(uses), key, features, now)| == MAX_CACHED_TILES
  {
    var s := Replay(uses);
    var grown := Delete(s, key) + [Entry(key, now + TILE_CACHE_TTL_MS, features)];
    hide Replay, LastTouch, LastStore, Lookup, Delete, InRecencyOrder, Evict;
    EveryHistoryKeepsInvariant(uses);
    StoreGrows(uses, key, features, now);
    DeleteKeepsOrder(s, key);
    var g :| 0 <= g < |s| && s[g].key == gone;
    assert s[g] in Delete(s, key);
    var i :| 0 <= i < |Delete(s, key)| && Delete(s, key)[i] == s[g];
    assert grown[i] == s[g];
    EvictedIsOlder(grown, uses + [Store(key, features, now)], i, kept);
  }

  lemma EvictedIsOlder(grown: Entries, uses: seq<Use>, i: nat, kept: TileKey)
    requires InRecencyOrder(grown, uses) && i < |grown|
    requires !HasKey(Evict(grown), grown[i].key) && HasKey(Evict(grown), kept)
    ensures LastTouch(uses, grown[i].key) < LastTouch(uses, kept)
    ensures |Evict(grown)| == MAX_CACHED_TILES
  {
    hide LastTouch;
    var cut := |grown| - |Evict(grown)|;
    forall j | cut <= j < |grown|
      ensures HasKey(Evict(grown), grown[j].key)
    {
      assert Evict(grown)[j - cut] == grown[j];
    }
    var k :| 0 <= k < |Evict(grown)| && Evict(grown)[k].key == kept;
    assert Evict(grown)[k] == grown[cut + k];
  }

  // ---------------------------------------------------------------------------------------
  // What the cache must still hold
  // ---------------------------------------------------------------------------------------

  /** Since its last store, the key was neither cleared away nor looked up at or past its expiry. */
  predicate NotDropped(uses: seq<Use>, key: TileKey, expiresAtMs: int) {
    if uses == [] then false
    else
      var before := uses[..|uses| - 1];
      match uses[|uses| - 1]
      case Clear => false
      case Store(k, _, _) => k == key || NotDropped(before, key, expiresAtMs)
      case Read(k, now) => (k == key ==> now < expiresAtMs) && NotDropped(before, key, expiresAtMs)
  }

  /** The keys touched after a position of the history. */
  ghost function TouchedAfter(uses: seq<Use>, position: int): set<TileKey> {
    if uses == [] then {}
    else
      var before, last := uses[..|uses| - 1], uses[|uses| - 1];
      TouchedAfter(before, position)
      + (if |before| > position && !last.Clear? && Touches(Replay(before), last, last.key) then {last.key} else {})
  }

  lemma OneMoreTouched(before: seq<Use>, use: Use, position: int)
    ensures TouchedAfter(before + [use], position) ==
            TouchedAfter(before, position)
            + (if |before| > position && !use.Clear? && Touches(Replay(before), use, use.key) then {use.key} else {})
  {
    assert (before + [use])[..|before|] == before;
  }

  lemma {:induction false} LastTouchInRange(uses: seq<Use>, key: TileKey)
    ensures -1 <= LastTouch(uses, key) && (uses == [] || LastTouch(uses, key) < |uses|)
  {
    if uses != [] { LastTouchInRange(uses[..|uses| - 1], key); }
  }

  lemma {:induction false} TouchedAfterMembers(uses: seq<Use>, position: int, key: TileKey)
    requires position >= -1
    ensures LastTouch(uses, key) > position ==> key in TouchedAfter(uses, position)
  {
    hide Replay;
    if uses == [] {
    } else {
      TouchedAfterMembers(uses[..|uses| - 1], position, key);
    }
  }

  /** The item last stored under the key, not dropped since, with fewer than 160 other keys touched since. */
  ghost predicate MustHold(uses: seq<Use>, key: TileKey, e: Entry) {
    && LastStore(uses, key) == Some(e) && NotDropped(uses, key, e.expiresAtMs)
    && |TouchedAfter(uses, LastTouch(uses, key)) - {key}| < 160
  }

  /** Such an item is still there, whatever else the history did: lookups that find it do not use it up. */
  lemma {:induction false} HeldUnlessDroppedOrCrowdedOut(uses: seq<Use>, key: TileKey, e: Entry)
    requires MustHold(uses, key, e)
    ensures e in Replay(uses)
  {
    hide Replay, LastTouch, TouchedAfter, Delete, Lookup, HistoryInvariant;
    var before, use := uses[..|uses| - 1], uses[|uses| - 1];
    assert uses == before + [use];
    OneMoreUse(before, use, key);
    StoredUnderItsKey(uses, key);
    if Touches(Replay(before), use, key) {
      TouchedIsHeld(before, use);
    } else {
      OneMoreTouched(before, use, LastTouch(uses, key));
      Smaller(TouchedAfter(before, LastTouch(uses, key)) - {key}, TouchedAfter(uses, LastTouch(uses, key)) - {key});
      HeldUnlessDroppedOrCrowdedOut(before, key, e);
      UntouchedIsHeld(before, use, e);
    }
  }

  lemma {:induction false} StoredUnderItsKey(uses: seq<Use>, key: TileKey)
    ensures LastStore(uses, key).Some? ==> LastStore(uses, key).value.key == key
  {
    if uses != [] { StoredUnderItsKey(uses[..|uses| - 1], key); }
  }

  lemma Smaller<T>(a: set<T>, b: set<T>)
    requires a <= b
    ensures |a| <= |b|
  {
    assert b == a + (b - a);
  }

  /** A touched key holds its last stored item afterwards. */
  lemma TouchedIsHeld(before: seq<Use>, use: Use)
    requires !use.Clear? && Touches(Replay(before), use, use.key)
    ensures LastStore(before + [use], use.key).Some?
    ensures LastStore(before + [use], use.key).value in Replay(before + [use])
  {
    hide Replay, LastTouch, LastStore, Delete, Lookup, InRecencyOrder;
    var s := Replay(before);
    OneMoreUse(before, use, use.key);
    EveryHistoryKeepsInvariant(before);
    EveryHistoryKeepsInvariant(before + [use]);
    if use.Store? {
      LastSurvives(Delete(s, use.key), Entry(use.key, use.now + TILE_CACHE_TTL_MS, use.features));
    } else {
      DeleteKeepsOrder(s, use.key);
      assert Lookup(s, use.key).value in Delete(s, use.key) + [Lookup(s, use.key).value];
    }
  }

  lemma LastSurvives(s: Entries, e: Entry)
    ensures e in Evict(s + [e])
  {
    var grown := s + [e];
    assert Evict(grown)[|Evict(grown)| - 1] == e;
  }

  /** An item whose key a use does not touch stays, unless the use drops or crowds it out. */
  lemma UntouchedIsHeld(before: seq<Use>, use: Use, e: Entry)
    requires e in Replay(before) && !use.Clear? && !Touches(Replay(before), use, e.key)
    requires use.Read? && use.key == e.key ==> use.now < e.expiresAtMs
    requires var uses := before + [use]; |TouchedAfter(uses, LastTouch(uses, e.key)) - {e.key}| < 160
    ensures e in Replay(before + [use])
  {
    hide Replay, LastTouch, LastStore, TouchedAfter, Delete, Lookup, InRecencyOrder, Evict;
    var s := Replay(before);
    EveryHistoryKeepsInvariant(before);
    OneMoreUse(before, use, e.key);
    DeleteKeepsOrder(s, use.key);
    LookupFinds(s, e);
    if use.Store? {
      StoreGrows(before, use.key, use.features, use.now);
      NotCrowdedOut(Delete(s, use.key) + [Entry(use.key, use.now + TILE_CACHE_TTL_MS, use.features)],
                    before + [use], e);
    }
  }

  lemma {:induction false} LookupFinds(s: Entries, e: Entry)
    requires DistinctKeys(s) && e in s
    ensures Lookup(s, e.key) == Some(e)
  {
    if s[0] != e {
      HeadIsNew(s);
      LookupFinds(s[1..], e);
    }
  }

  lemma {:induction false} AsManyKeys(s: Entries)
    requires DistinctKeys(s)
    ensures |set e | e in s :: e.key| == |s|
  {
    if s == [] {
      assert (set e | e in s :: e.key) == {};
    } else {
      HeadIsNew(s);
      AsManyKeys(s[1..]);
      assert (set e | e in s :: e.key) == {s[0].key} + (set e | e in s[1..] :: e.key);
    }
  }

  lemma NotCrowdedOut(grown: Entries, uses: seq<Use>, e: Entry)
    requires Accounts(grown, uses) && e in grown
    requires |TouchedAfter(uses, LastTouch(uses, e.key)) - {e.key}| < 160
    ensures e in Evict(grown)
  {
    hide LastTouch, LastStore, TouchedAfter, DistinctKeys, InRecencyOrder;
    var i :| 0 <= i < |grown| && grown[i] == e;
    var cut := |grown| - |Evict(grown)|;
    if i < cut {
      CrowdedOutByMany(grown, uses, i, cut);
      assert false;
    }
    assert Evict(grown)[i - cut] == e;
  }

  /** What evicts an item has all been touched after it. */
  lemma CrowdedOutByMany(grown: Entries, uses: seq<Use>, i: nat, cut: nat)
    requires DistinctKeys(grown) && InRecencyOrder(grown, uses) && i < cut <= |grown|
    ensures |TouchedAfter(uses, LastTouch(uses, grown[i].key)) - {grown[i].key}| >= |grown| - cut
  {
    hide LastTouch, TouchedAfter;
    var kept, e := grown[cut..], grown[i];
    SuffixKeepsDistinct(grown, cut);
    AsManyKeys(kept);
    LastTouchInRange(uses, e.key);
    var keys := set d | d in kept :: d.key;
    forall key | key in keys
      ensures key in TouchedAfter(uses, LastTouch(uses, e.key)) - {e.key}
    {
      var d :| d in kept && d.key == key;
      var k :| 0 <= k < |kept| && kept[k] == d;
      assert grown[cut + k] == d;
      TouchedAfterMembers(uses, LastTouch(uses, e.key), key);
    }
    Smaller(keys, TouchedAfter(uses, LastTouch(uses, e.key)) - {e.key});
  }

  // ---------------------------------------------------------------------------------------
  // One minute after a store
  // ---------------------------------------------------------------------------------------

  /** The keys other than this one that uses name. */
  function OtherKeys(uses: seq<Use>, key: TileKey): set<TileKey> {
    set u | u in uses && !u.Clear? && u.key != key :: u.key
  }

  /** No use clears the cache, stores the key again, or looks it up at or past the moment. */
  predicate LeavesKey(uses: seq<Use>, key: TileKey, expiresAtMs: int) {
    forall u :: u in uses ==> !u.Clear? && (u.key == key ==> u.Read? && u.now < expiresAtMs)
  }

  lemma {:induction false} NothingTouchedAfter(uses: seq<Use>, position: int)
    requires position >= |uses|
    ensures TouchedAfter(uses, position) == {}
  {
    hide Replay, Touches;
    if uses != [] { NothingTouchedAfter(uses[..|uses| - 1], position); }
  }

  /** What the history of one store and the uses since amounts to for its key. */
  ghost predicate StillLeft(uses: seq<Use>, key: TileKey, e: Entry, since: seq<Use>, start: nat, position: int) {
    && LastStore(uses, key) == Some(e) && NotDropped(uses, key, e.expiresAtMs) && LastTouch(uses, key) >= start
    && TouchedAfter(uses, position) - {key} <= OtherKeys(since, key)
  }

  lemma StoreLeavesKey(before: seq<Use>, key: TileKey, features: seq<Cafe>, now: int, position: int)
    requires position >= |before|
    ensures var uses := before + [Store(key, features, now)];
            StillLeft(uses, key, Entry(key, now + 60_000, features), [], |before|, position)
  {
    hide Replay;
    var uses := before + [Store(key, features, now)];
    OneMoreUse(before, Store(key, features, now), key);
    OneMoreTouched(before, Store(key, features, now), position);
    NothingTouchedAfter(before, position);
    hide LastStore, LastTouch, TouchedAfter;
    assert uses[|uses| - 1] == Store(key, features, now);
  }

  lemma UseLeavesKey(uses: seq<Use>, use: Use, key: TileKey, e: Entry, since: seq<Use>, start: nat, position: int)
    requires StillLeft(uses, key, e, since, start, position) && start <= |uses|
    requires !use.Clear? && (use.key == key ==> use.Read? && use.now < e.expiresAtMs)
    ensures StillLeft(uses + [use], key, e, since + [use], start, position)
  {
    hide Replay, LastStore, LastTouch, TouchedAfter;
    OneMoreUse(uses, use, key);
    OneMoreTouched(uses, use, position);
    assert (uses + [use])[..|uses|] == uses;
    forall k | k in OtherKeys(since, key) || (k == use.key && k != key)
      ensures k in OtherKeys(since + [use], key)
    {
      var u :| (u in since || u == use) && !u.Clear? && u.key != key && u.key == k;
      assert u in since + [use];
    }
  }

  lemma {:induction false} LeftKeyIsHeld(
      before: seq<Use>, key: TileKey, features: seq<Cafe>, now: int, since: seq<Use>, position: int)
    requires LeavesKey(since, key, now + 60_000) && position >= |before|
    ensures StillLeft(before + [Store(key, features, now)] + since, key, Entry(key, now + 60_000, features), since,
                      |before|, position)
  {
    hide StillLeft;
    var store := before + [Store(key, features, now)];
    if since == [] {
      assert store + since == store;
      StoreLeavesKey(before, key, features, now, position);
    } else {
      var earlier, last := since[..|since| - 1], since[|since| - 1];
      assert since == earlier + [last] && store + since == (store + earlier) + [last] && last in since;
      LeftKeyIsHeld(before, key, features, now, earlier, position);
      UseLeavesKey(store + earlier, last, key, Entry(key, now + 60_000, features), earlier, |before|, position);
    }
  }

  /**
   For sixty seconds a stored answer is served, however often it is looked up, and never after: as long as the
   cache is not cleared, the key is not stored again, and fewer than 160 other keys are used.
   */
  lemma StoredTileIsServedForAMinute(
      before: seq<Use>, key: TileKey, features: seq<Cafe>, stored: int, since: seq<Use>, now: int)
    requires LeavesKey(since, key, stored + 60_000) && |OtherKeys(since, key)| < 160
    ensures ReadValue(Replay(before + [Store(key, features, stored)] + since), key, now) ==
            if now < stored + 60_000 then Some(features) else None
  {
    var uses, e := before + [Store(key, features, stored)] + since, Entry(key, stored + 60_000, features);
    LeftKeyIsHeld(before, key, features, stored, since, |before|);
    LeftKeyIsHeld(before, key, features, stored, since, LastTouch(uses, key));
    Smaller(TouchedAfter(uses, LastTouch(uses, key)) - {key}, OtherKeys(since, key));
    hide Replay, LastTouch, LastStore, TouchedAfter, OtherKeys, LeavesKey, NotDropped, Lookup;
    HeldUnlessDroppedOrCrowdedOut(uses, key, e);
    EveryHistoryKeepsInvariant(uses);
    LookupFinds(Replay(uses), e);
  }
}
