/**
 The geometry under the map client's tile cache (frontend/src/cafe-provider.ts).

 A viewport is covered by square Web-Mercator tiles.  Longitude maps linearly to the
 horizontal tile coordinate.  The latitude map is a parameter: `Projection` holds the
 function and its inverse, and `Mercator` states the only facts the code relies on.
 */
module TileGeometry {
  import opened IntDivision

  const MERCATOR_MAX_LAT: real := 85.05112878
  const MIN_QUERY_TILE_ZOOM := 10
  const MAX_QUERY_TILE_ZOOM := 15
  const MAX_ROOT_TILE_REQUESTS := 16

  datatype Viewport = Viewport(minLng: real, minLat: real, maxLng: real, maxLat: real, zoom: real)

  datatype Tile = Tile(z: nat, x: int, y: int)

  datatype TileRange = TileRange(z: nat, firstX: int, lastX: int, firstY: int, lastY: int)

  /** The latitude-to-row map on the unit interval, and its inverse. */
  datatype Projection = Projection(toY: real -> real, toLat: real -> real) {

    /** Strictly decreasing in latitude, and inverse to `toLat` on the unit square. */
    ghost predicate Mercator() {
      && (forall a: real, b: real :: -MERCATOR_MAX_LAT <= a < b <= MERCATOR_MAX_LAT ==> toY(b) < toY(a))
      && (forall t: real :: 0.0 <= t <= 1.0 ==>
                              -MERCATOR_MAX_LAT <= toLat(t) <= MERCATOR_MAX_LAT && toY(toLat(t)) == t)
    }
  }

  function Clamp(value: real, lo: real, hi: real): real {
    var atLeast := if value < lo then lo else value;
    if atLeast > hi then hi else atLeast
  }

  function ClampInt(value: int, lo: int, hi: int): int {
    var atLeast := if value < lo then lo else value;
    if atLeast > hi then hi else atLeast
  }

  function Ceil(r: real): (c: int)
    ensures c as real - 1.0 < r <= c as real
  {
    -((-r).Floor)
  }

  function Pow2(k: nat): (n: nat)
    ensures n >= 1
  {
    if k == 0 then 1 else 2 * Pow2(k - 1)
  }

  /** A fraction of the world's width or height, in tiles. */
  function Scale(fraction: real, tileCount: nat): real {
    fraction * tileCount as real
  }

  function LongitudeToTileX(longitude: real, tileCount: nat): real {
    Scale((longitude + 180.0) / 360.0, tileCount)
  }

  function LatitudeToTileY(p: Projection, latitude: real, tileCount: nat): real {
    Scale(p.toY(Clamp(latitude, -MERCATOR_MAX_LAT, MERCATOR_MAX_LAT)), tileCount)
  }

  function TileRangeForViewport(p: Projection, v: Viewport, z: nat): TileRange {
    var tileCount := Pow2(z);
    var west := v.minLng;
    var east := if v.maxLng < west then v.maxLng + 360.0 else v.maxLng;
    var firstY := ClampInt(LatitudeToTileY(p, v.maxLat, tileCount).Floor, 0, tileCount - 1);
    var lastY := ClampInt(Ceil(LatitudeToTileY(p, v.minLat, tileCount)) - 1, 0, tileCount - 1);
    if east - west >= 360.0 then
      TileRange(z, 0, tileCount - 1, firstY, lastY)
    else
      TileRange(z, LongitudeToTileX(west, tileCount).Floor, Ceil(LongitudeToTileX(east, tileCount)) - 1,
                firstY, lastY)
  }

  function TileRangeSize(range: TileRange): int {
    var width := range.lastX - range.firstX + 1;
    var height := range.lastY - range.firstY + 1;
    (if width < 0 then 0 else width) * (if height < 0 then 0 else height)
  }

  /** The remainder of JavaScript's `%`, which takes the sign of the dividend. */
  function JsRem(a: int, b: int): int
    requires b > 0
  {
    if a >= 0 then a % b else -((-a) % b)
  }

  /** The column a wrapped column denotes: the non-negative remainder. */
  function CanonicalX(x: int, tileCount: nat): (c: int)
    requires tileCount > 0
    ensures 0 <= c < tileCount
    ensures exists turns: int :: x == c + turns * tileCount
  {
    var c := JsRem(JsRem(x, tileCount) + tileCount, tileCount);
    CanonicalIsRemainder(x, tileCount);
    assert x == c + (x / tileCount) * tileCount;
    c
  }

  lemma CanonicalIsRemainder(x: int, n: nat)
    requires n > 0
    ensures JsRem(JsRem(x, n) + n, n) == x % n
  {
    if x >= 0 {
      AddTurns(x % n, 1, n);
    } else {
      var r := (-x) % n;
      NegatedRemainder(-x, n);
      AddTurns(0, 1, n);
      AddTurns(if r == 0 then 0 else n - r, 0, n);
    }
  }

  lemma NegatedRemainder(x: int, n: nat)
    requires n > 0
    ensures (-x) % n == if x % n == 0 then 0 else n - x % n
  {
    var q, r := x / n, x % n;
    assert x == q * n + r;
    if r == 0 {
      assert -x == 0 + (-q) * n;
      AddTurns(0, -q, n);
    } else {
      assert -x == (n - r) + (-q - 1) * n;
      AddTurns(n - r, -q - 1, n);
    }
  }

  /** The zoom the shrinking loop settles on. */
  function SettledZoom(p: Projection, v: Viewport, z: nat): nat {
    if z > MIN_QUERY_TILE_ZOOM && TileRangeSize(TileRangeForViewport(p, v, z)) > MAX_ROOT_TILE_REQUESTS
    then SettledZoom(p, v, z - 1)
    else z
  }

  function RootZoom(p: Projection, v: Viewport): nat {
    SettledZoom(p, v, ClampInt(v.zoom.Floor, MIN_QUERY_TILE_ZOOM, MAX_QUERY_TILE_ZOOM))
  }

  function RootRange(p: Projection, v: Viewport): TileRange {
    TileRangeForViewport(p, v, RootZoom(p, v))
  }

  /** The root zoom is the deepest allowed one with at most sixteen tiles, or the floor. */
  lemma {:induction false} RootZoomIsDeepestThatFits(p: Projection, v: Viewport)
    ensures var z := RootZoom(p, v);
            var start := ClampInt(v.zoom.Floor, MIN_QUERY_TILE_ZOOM, MAX_QUERY_TILE_ZOOM);
            && MIN_QUERY_TILE_ZOOM <= z <= start
            && (z == MIN_QUERY_TILE_ZOOM || TileRangeSize(RootRange(p, v)) <= MAX_ROOT_TILE_REQUESTS)
            && forall k: nat :: z < k <= start ==>
                                  TileRangeSize(TileRangeForViewport(p, v, k)) > MAX_ROOT_TILE_REQUESTS
  {
    SettledZoomStops(p, v, ClampInt(v.zoom.Floor, MIN_QUERY_TILE_ZOOM, MAX_QUERY_TILE_ZOOM));
  }

  lemma {:induction false} SettledZoomStops(p: Projection, v: Viewport, start: nat)
    requires MIN_QUERY_TILE_ZOOM <= start
    ensures var z := SettledZoom(p, v, start);
            && MIN_QUERY_TILE_ZOOM <= z <= start
            && (z == MIN_QUERY_TILE_ZOOM || TileRangeSize(TileRangeForViewport(p, v, z)) <= MAX_ROOT_TILE_REQUESTS)
            && forall k: nat :: z < k <= start ==>
                                  TileRangeSize(TileRangeForViewport(p, v, k)) > MAX_ROOT_TILE_REQUESTS
  {
    if start > MIN_QUERY_TILE_ZOOM && TileRangeSize(TileRangeForViewport(p, v, start)) > MAX_ROOT_TILE_REQUESTS {
      SettledZoomStops(p, v, start - 1);
    }
  }

  /** `tile` is one of the tiles of `range`, its column brought back into the world. */
  ghost predicate InRange(range: TileRange, tile: Tile) {
    && tile.z == range.z
    && range.firstY <= tile.y <= range.lastY
    && exists x: int :: range.firstX <= x <= range.lastX && CanonicalX(x, Pow2(range.z)) == tile.x
  }

  predicate NoRepeats(tiles: seq<Tile>) {
    forall i, j :: 0 <= i < j < |tiles| ==> tiles[i] != tiles[j]
  }

  /** The root tiles: exactly those of the root range, each once. */
  ghost predicate RootTiles(p: Projection, v: Viewport, tiles: seq<Tile>) {
    && NoRepeats(tiles)
    && (forall tile :: tile in tiles <==> InRange(RootRange(p, v), tile))
  }

  /** The inner loop: the tiles of one column that are not yet in the Map. */
  method AddColumn(before: seq<Tile>, z: nat, x: int, firstY: int, lastY: int) returns (tiles: seq<Tile>)
    requires NoRepeats(before)
    ensures NoRepeats(tiles)
    ensures forall tile :: tile in tiles <==>
                           tile in before || (tile.z == z && tile.x == x && firstY <= tile.y <= lastY)
  {
    tiles := before;
    var y := firstY;
    while y <= lastY
      invariant firstY <= y
      invariant NoRepeats(tiles)
      invariant forall tile :: tile in tiles <==>
                               tile in before
                               || (tile.z == z && tile.x == x && firstY <= tile.y < y && tile.y <= lastY)
    {
      var tile := Tile(z, x, y);
      if tile !in tiles {
        tiles := tiles + [tile];
      }
      y := y + 1;
    }
  }

  method TilesForViewport(p: Projection, v: Viewport) returns (tiles: seq<Tile>)
    ensures RootTiles(p, v, tiles)
  {
    var z: nat := ClampInt(v.zoom.Floor, MIN_QUERY_TILE_ZOOM, MAX_QUERY_TILE_ZOOM);
    var range := TileRangeForViewport(p, v, z);
    while z > MIN_QUERY_TILE_ZOOM && TileRangeSize(range) > MAX_ROOT_TILE_REQUESTS
      invariant range == TileRangeForViewport(p, v, z)
      invariant SettledZoom(p, v, z) == RootZoom(p, v)
    {
      z := z - 1;
      range := TileRangeForViewport(p, v, z);
    }
    assert range == RootRange(p, v);
    hide TileRangeForViewport, TileRangeSize, SettledZoom, RootZoom, CanonicalX, JsRem, Pow2, InRange;

    var tileCount := Pow2(z);
    tiles := [];
    NoColumns(range.(lastX := range.firstX - 1));
    var x := range.firstX;
    while x <= range.lastX
      invariant range.firstX <= x
      invariant x <= range.lastX + 1 || x == range.firstX
      invariant NoRepeats(tiles)
      invariant forall tile :: tile in tiles <==> InRange(range.(lastX := x - 1), tile)
    {
      tiles := AddColumn(tiles, z, CanonicalX(x, tileCount), range.firstY, range.lastY);
      ColumnExtendsRange(range, x);
      x := x + 1;
    }
    if range.lastX < range.firstX {
      NoColumns(range);
    } else {
      assert range.(lastX := x - 1) == range;
    }
  }

  lemma NoColumns(range: TileRange)
    requires range.lastX < range.firstX
    ensures forall tile :: !InRange(range, tile)
  {
  }

  lemma ColumnExtendsRange(range: TileRange, x: int)
    requires range.firstX <= x
    ensures forall tile :: InRange(range.(lastX := x), tile) <==>
                           InRange(range.(lastX := x - 1), tile)
                           || (tile.z == range.z && tile.x == CanonicalX(x, Pow2(range.z))
                               && range.firstY <= tile.y <= range.lastY)
  {
    forall tile | InRange(range.(lastX := x), tile) && !InRange(range.(lastX := x - 1), tile)
      ensures tile.x == CanonicalX(x, Pow2(range.z))
    {
      var col :| range.firstX <= col <= x && CanonicalX(col, Pow2(range.z)) == tile.x;
    }
  }

  // ---------------------------------------------------------------------------------------
  // Points
  // ---------------------------------------------------------------------------------------

  datatype Point = Point(lng: real, lat: real)

  /** The bounds the client puts into a tile request. */
  function TileBounds(p: Projection, tile: Tile): Viewport {
    var n := Pow2(tile.z) as real;
    Viewport(tile.x as real / n * 360.0 - 180.0, p.toLat((tile.y + 1) as real / n),
             (tile.x + 1) as real / n * 360.0 - 180.0, p.toLat(tile.y as real / n), tile.z as real)
  }

  /** The server's filter: both ends of both intervals included. */
  predicate InBox(box: Viewport, at: Point) {
    box.minLng <= at.lng <= box.maxLng && box.minLat <= at.lat <= box.maxLat
  }

  predicate InTile(p: Projection, tile: Tile, at: Point) {
    InBox(TileBounds(p, tile), at)
  }

  /** The client's final filter, which understands a viewport across the antimeridian. */
  predicate InsideViewport(v: Viewport, at: Point) {
    var insideLongitude :=
      if v.maxLng >= v.minLng then v.minLng <= at.lng <= v.maxLng
      else at.lng >= v.minLng || at.lng <= v.maxLng;
    insideLongitude && v.minLat <= at.lat <= v.maxLat
  }

  /** The world square the tiles can reach. */
  predicate InWorld(p: Projection, at: Point) {
    -180.0 <= at.lng <= 180.0 && p.toLat(1.0) <= at.lat <= p.toLat(0.0)
  }

  predicate ValidTile(tile: Tile) {
    0 <= tile.x < Pow2(tile.z) && 0 <= tile.y < Pow2(tile.z)
  }

  function TileChildren(tile: Tile): seq<Tile> {
    var z, x, y := tile.z + 1, tile.x * 2, tile.y * 2;
    [Tile(z, x, y), Tile(z, x + 1, y), Tile(z, x, y + 1), Tile(z, x + 1, y + 1)]
  }

  // ---------------------------------------------------------------------------------------
  // A tile in tile coordinates
  // ---------------------------------------------------------------------------------------

  lemma {:induction false} ScaleGrows(a: real, b: real, n: nat)
    requires a < b && n > 0
    ensures Scale(a, n) < Scale(b, n)
  {
    ScaleSuccessor(a, n - 1);
    ScaleSuccessor(b, n - 1);
    if n == 1 {
    } else {
      ScaleGrows(a, b, n - 1);
    }
  }

  lemma ScaleSuccessor(a: real, n: nat)
    ensures Scale(a, n + 1) == Scale(a, n) + a
    ensures Scale(a, 0) == 0.0
  {
    assert a * (n as real + 1.0) == a * n as real + a;
  }

  lemma ScaleOrder(a: real, b: real, n: nat)
    requires n > 0
    ensures a < b <==> Scale(a, n) < Scale(b, n)
    ensures a <= b <==> Scale(a, n) <= Scale(b, n)
  {
    hide Scale;
    if a < b { ScaleGrows(a, b, n); }
    if b < a { ScaleGrows(b, a, n); }
  }

  lemma ScaleWholes(a: real, n: nat)
    ensures Scale(0.0, n) == 0.0 && Scale(1.0, n) == n as real
    ensures Scale(a + 1.0, n) == Scale(a, n) + n as real
    ensures Scale(a, 2 * n) == 2.0 * Scale(a, n)
  {
    var m := n as real;
    assert (2 * n) as real == 2.0 * m;
    assert (a + 1.0) * m == a * m + m;
    assert a * (2.0 * m) == 2.0 * (a * m);
  }

  lemma ScaleFraction(k: int, n: nat)
    requires n > 0
    ensures Scale(k as real / n as real, n) == k as real
    ensures 0 <= k <= n ==> 0.0 <= k as real / n as real <= 1.0
  {
    var q := k as real / n as real;
    assert q * n as real == k as real;
    if 0 <= k <= n {
      ScaleOrder(0.0, q, n);
      ScaleOrder(q, 1.0, n);
      ScaleWholes(0.0, n);
    }
  }

  /** A longitude lies between a tile's edges exactly when its tile coordinate does. */
  lemma LongitudeInTileCoordinates(lng: real, x: int, n: nat)
    requires n > 0
    ensures x as real / n as real * 360.0 - 180.0 <= lng <==> x as real <= LongitudeToTileX(lng, n)
    ensures lng <= x as real / n as real * 360.0 - 180.0 <==> LongitudeToTileX(lng, n) <= x as real
  {
    ScaleFraction(x, n);
    var edge, at := x as real / n as real, (lng + 180.0) / 360.0;
    ScaleOrder(edge, at, n);
    ScaleOrder(at, edge, n);
    hide Scale;
    assert edge * 360.0 - 180.0 <= lng <==> edge <= at;
    assert lng <= edge * 360.0 - 180.0 <==> at <= edge;
  }

  lemma LatitudeOrder(p: Projection, a: real, b: real)
    requires p.Mercator()
    requires -MERCATOR_MAX_LAT <= a <= MERCATOR_MAX_LAT && -MERCATOR_MAX_LAT <= b <= MERCATOR_MAX_LAT
    ensures a <= b <==> p.toY(b) <= p.toY(a)
    ensures a < b <==> p.toY(b) < p.toY(a)
  {
  }

  lemma LatitudeInTileCoordinates(p: Projection, lat: real, y: int, n: nat)
    requires p.Mercator() && 0 <= y <= n && n > 0
    requires -MERCATOR_MAX_LAT <= lat <= MERCATOR_MAX_LAT
    ensures p.toLat(y as real / n as real) <= lat <==> LatitudeToTileY(p, lat, n) <= y as real
    ensures lat <= p.toLat(y as real / n as real) <==> y as real <= LatitudeToTileY(p, lat, n)
  {
    hide Scale;
    ScaleFraction(y, n);
    var t := y as real / n as real;
    LatitudeOrder(p, p.toLat(t), lat);
    LatitudeOrder(p, lat, p.toLat(t));
    ScaleOrder(p.toY(lat), t, n);
    ScaleOrder(t, p.toY(lat), n);
  }

  /** Membership in a tile of the world, read in tile coordinates. */
  lemma InTileCoordinates(p: Projection, tile: Tile, at: Point)
    requires p.Mercator() && ValidTile(tile) && InWorld(p, at)
    ensures var n := Pow2(tile.z);
            InTile(p, tile, at) <==>
            && tile.x as real <= LongitudeToTileX(at.lng, n) <= (tile.x + 1) as real
            && tile.y as real <= LatitudeToTileY(p, at.lat, n) <= (tile.y + 1) as real
  {
    var n := Pow2(tile.z);
    WorldRow(p, at.lat, n);
    LongitudeInTileCoordinates(at.lng, tile.x, n);
    LongitudeInTileCoordinates(at.lng, tile.x + 1, n);
    LatitudeInTileCoordinates(p, at.lat, tile.y, n);
    LatitudeInTileCoordinates(p, at.lat, tile.y + 1, n);
  }

  lemma ScaleUnit(t: real, n: nat)
    requires 0.0 <= t <= 1.0 && n > 0
    ensures 0.0 <= Scale(t, n) <= n as real
  {
    ScaleOrder(0.0, t, n);
    ScaleOrder(t, 1.0, n);
    ScaleWholes(0.0, n);
  }

  lemma WorldColumn(lng: real, n: nat)
    requires -180.0 <= lng <= 180.0 && n > 0
    ensures 0.0 <= LongitudeToTileX(lng, n) <= n as real
  {
    ScaleUnit((lng + 180.0) / 360.0, n);
  }

  lemma WorldRow(p: Projection, lat: real, n: nat)
    requires p.Mercator() && p.toLat(1.0) <= lat <= p.toLat(0.0) && n > 0
    ensures -MERCATOR_MAX_LAT <= lat <= MERCATOR_MAX_LAT
    ensures 0.0 <= LatitudeToTileY(p, lat, n) <= n as real
  {
    hide Scale;
    LatitudeOrder(p, p.toLat(1.0), lat);
    LatitudeOrder(p, lat, p.toLat(0.0));
    ScaleUnit(p.toY(lat), n);
  }

  /** Child `k` covers one quadrant of its parent. */
  lemma ChildCoordinates(p: Projection, tile: Tile, k: int, at: Point)
    requires p.Mercator() && ValidTile(tile) && InWorld(p, at)
    requires 0 <= k < 4
    ensures var child := TileChildren(tile)[k];
            && ValidTile(child)
            && (InTile(p, child, at) <==>
                && InHalf(LongitudeToTileX(at.lng, Pow2(tile.z)), tile.x, k % 2)
                && InHalf(LatitudeToTileY(p, at.lat, Pow2(tile.z)), tile.y, k / 2))
  {
    var child := TileChildren(tile)[k];
    assert child == Tile(tile.z + 1, tile.x * 2 + k % 2, tile.y * 2 + k / 2);
    assert Pow2(child.z) == 2 * Pow2(tile.z);
    InTileCoordinates(p, child, at);
    DoubledCoordinates(p, at, Pow2(tile.z));
  }

  /** `t` lies in the first (0) or second (1) half of the unit interval starting at `cell`. */
  predicate InHalf(t: real, cell: int, half: int) {
    2.0 * cell as real + half as real <= 2.0 * t <= 2.0 * cell as real + half as real + 1.0
  }

  lemma HalvesCoverCell(t: real, cell: int)
    ensures cell as real <= t <= (cell + 1) as real <==> InHalf(t, cell, 0) || InHalf(t, cell, 1)
  {
  }

  /** The four children of a tile cover exactly their parent. */
  lemma ChildrenCoverParent(p: Projection, tile: Tile, at: Point)
    requires p.Mercator() && ValidTile(tile) && InWorld(p, at)
    ensures InTile(p, tile, at) <==> exists k :: 0 <= k < 4 && InTile(p, TileChildren(tile)[k], at)
  {
    hide InTile, LongitudeToTileX, LatitudeToTileY;
    var tx, ty := LongitudeToTileX(at.lng, Pow2(tile.z)), LatitudeToTileY(p, at.lat, Pow2(tile.z));
    forall k | 0 <= k < 4
      ensures InTile(p, TileChildren(tile)[k], at) <==> InHalf(tx, tile.x, k % 2) && InHalf(ty, tile.y, k / 2)
    {
      ChildCoordinates(p, tile, k, at);
    }
    InTileCoordinates(p, tile, at);
    HalvesCoverCell(tx, tile.x);
    HalvesCoverCell(ty, tile.y);
    if InTile(p, tile, at) {
      var k := (if InHalf(tx, tile.x, 0) then 0 else 1) + (if InHalf(ty, tile.y, 0) then 0 else 2);
      assert InTile(p, TileChildren(tile)[k], at);
    }
  }

  lemma ChildrenAreTiles(tile: Tile)
    requires ValidTile(tile)
    ensures forall k :: 0 <= k < 4 ==> ValidTile(TileChildren(tile)[k]) && TileChildren(tile)[k].z == tile.z + 1
  {
    assert Pow2(tile.z + 1) == 2 * Pow2(tile.z);
  }

  lemma DoubledCoordinates(p: Projection, at: Point, n: nat)
    ensures LongitudeToTileX(at.lng, 2 * n) == 2.0 * LongitudeToTileX(at.lng, n)
    ensures LatitudeToTileY(p, at.lat, 2 * n) == 2.0 * LatitudeToTileY(p, at.lat, n)
  {
    ScaleWholes((at.lng + 180.0) / 360.0, n);
    ScaleWholes(p.toY(Clamp(at.lat, -MERCATOR_MAX_LAT, MERCATOR_MAX_LAT)), n);
  }

  // ---------------------------------------------------------------------------------------
  // Do the root tiles cover the viewport?
  // ---------------------------------------------------------------------------------------

  /** Some root tile of the viewport contains the point. */
  ghost predicate Covered(p: Projection, v: Viewport, at: Point) {
    exists tile :: InRange(RootRange(p, v), tile) && InTile(p, tile, at)
  }

  /** A viewport across the antimeridian. */
  predicate Wrapped(v: Viewport) {
    v.maxLng < v.minLng
  }

  /** A plain west-to-east viewport, or one across the antimeridian given in world longitudes. */
  predicate OrdinaryShape(v: Viewport) {
    v.minLng <= v.maxLng || -180.0 <= v.maxLng < v.minLng <= 180.0
  }

  /** A wrapped viewport that shows every longitude of the world. */
  predicate WrapsWorld(v: Viewport) {
    Wrapped(v) && (v.maxLng > 180.0 || v.minLng < -180.0)
  }

  /** The viewport shows at least one point of the world square. */
  predicate MeetsWorld(p: Projection, v: Viewport) {
    && v.minLat <= v.maxLat
    && v.minLat <= p.toLat(0.0) && p.toLat(1.0) <= v.maxLat
    && (if Wrapped(v) then v.minLng <= 180.0 || -180.0 <= v.maxLng else v.minLng <= 180.0 && -180.0 <= v.maxLng)
  }

  predicate OnGrid(t: real) {
    t == t.Floor as real
  }

  function East(v: Viewport): real {
    if v.maxLng < v.minLng then v.maxLng + 360.0 else v.maxLng
  }

  /**
   A longitude of the viewport has no column. For an ordinary shape it is on its own edge: a zero-width viewport on
   a tile boundary, or an edge on the antimeridian seen from the side no tile is requested on. For a wrapped one
   that starts (ends) beyond the world it is the antimeridian, unless the column next to it is requested. For one
   that shows the whole world it is any column left over when fewer than all are requested.
   */
  predicate LosesColumn(p: Projection, v: Viewport) {
    var n := Pow2(RootZoom(p, v));
    var west, east := LongitudeToTileX(v.minLng, n), LongitudeToTileX(East(v), n);
    if OrdinaryShape(v) then
      || (v.minLng == v.maxLng && OnGrid(west))
      || (v.minLng != v.maxLng && v.minLng == 180.0 && east <= west + n as real - 1.0)
      || (v.minLng != v.maxLng && v.maxLng == -180.0 && east - n as real + 1.0 <= west)
    else if WrapsWorld(v) then Ceil(east) - west.Floor < n
    else if v.minLng > 180.0 then west >= (n + 1) as real || v.maxLng == -180.0
    else east <= (n - 1) as real || v.minLng == 180.0
  }

  /** A zero-height viewport on a tile boundary inside the world. */
  predicate LosesRow(p: Projection, v: Viewport) {
    var n := Pow2(RootZoom(p, v));
    var row := LatitudeToTileY(p, v.minLat, n);
    v.minLat == v.maxLat && OnGrid(row) && 0.0 < row < n as real
  }

  /** The viewports some of whose points lie in no root tile, decided from the viewport and the zoom. */
  predicate LosesPoint(p: Projection, v: Viewport) {
    LosesColumn(p, v) || LosesRow(p, v)
  }

  /** A row of the range holds the coordinate, unless the band is a single interior grid line. */
  lemma RowFound(top: real, bottom: real, t: real, n: nat) returns (y: int)
    requires n > 0 && top <= t <= bottom && 0.0 <= t <= n as real
    requires !(top == bottom && OnGrid(top) && 0.0 < top < n as real)
    ensures ClampInt(top.Floor, 0, n - 1) <= y <= ClampInt(Ceil(bottom) - 1, 0, n - 1)
    ensures y as real <= t <= (y + 1) as real
  {
    var last := ClampInt(Ceil(bottom) - 1, 0, n - 1);
    y := if t.Floor <= last then t.Floor else last;
  }

  lemma CanonicalIs(c: int, turns: int, n: nat)
    requires 0 <= c < n
    ensures CanonicalX(c + turns * n, n) == c
  {
    CanonicalIsRemainder(c + turns * n, n);
    AddTurns(c, turns, n);
  }

  /** `x`, brought back into the world, is a column holding coordinate `t`. */
  predicate ColumnHolds(x: int, t: real, n: nat)
    requires n > 0
  {
    CanonicalX(x, n) as real <= t <= (CanonicalX(x, n) + 1) as real
  }

  /**
   The columns requested for the unwrapped span `a..b` hold the world coordinate `t`, seen
   `k` turns further east, unless `t` is the antimeridian and only its other side is requested.
   */
  lemma ColumnFound(a: real, b: real, t: real, k: int, n: nat) returns (x: int)
    requires n > 0 && 0.0 <= t <= n as real
    requires a <= t + (k * n) as real <= b && !(a == b && OnGrid(a))
    requires t == 0.0 && b == (k * n) as real ==> a < b - n as real + 1.0
    requires t == n as real && a == t + (k * n) as real ==> b > a + n as real - 1.0
    ensures a.Floor <= x <= Ceil(b) - 1 && ColumnHolds(x, t, n)
  {
    hide CanonicalX, JsRem;
    var kn := k * n;
    assert (k - 1) * n == kn - n && (k + 1) * n == kn + n;
    var c, turns;
    if t == 0.0 {
      c, turns := 0, if kn <= Ceil(b) - 1 then k else k - 1;
    } else if t == n as real {
      c, turns := n - 1, if a.Floor <= n - 1 + kn then k else k + 1;
    } else {
      c, turns := if t.Floor + kn <= Ceil(b) - 1 then t.Floor else t.Floor - 1, k;
    }
    x := c + turns * n;
    assert ColumnHolds(x, t, n) by {
      CanonicalIs(c, turns, n);
    }
  }

  lemma TileXOrder(a: real, b: real, n: nat)
    requires n > 0
    ensures a < b <==> LongitudeToTileX(a, n) < LongitudeToTileX(b, n)
    ensures LongitudeToTileX(a + 360.0, n) == LongitudeToTileX(a, n) + n as real
    ensures a + 360.0 <= b <==> LongitudeToTileX(a, n) + n as real <= LongitudeToTileX(b, n)
    ensures LongitudeToTileX(-180.0, n) == 0.0 && LongitudeToTileX(180.0, n) == n as real
  {
    hide Scale;
    var fa, fb := (a + 180.0) / 360.0, (b + 180.0) / 360.0;
    ScaleOrder(fa, fb, n);
    ScaleWholes(fa, n);
    ScaleOrder(fa + 1.0, fb, n);
    assert (a + 360.0 + 180.0) / 360.0 == fa + 1.0;
    assert a < b <==> fa < fb;
  }

  lemma TileYOrder(p: Projection, a: real, b: real, n: nat)
    requires p.Mercator() && n > 0
    ensures a <= b ==> LatitudeToTileY(p, b, n) <= LatitudeToTileY(p, a, n)
    ensures a < b && -MERCATOR_MAX_LAT <= a && b <= MERCATOR_MAX_LAT ==>
              LatitudeToTileY(p, b, n) < LatitudeToTileY(p, a, n)
  {
    var ca, cb := Clamp(a, -MERCATOR_MAX_LAT, MERCATOR_MAX_LAT), Clamp(b, -MERCATOR_MAX_LAT, MERCATOR_MAX_LAT);
    assert a <= b ==> ca <= cb;
    assert a < b && -MERCATOR_MAX_LAT <= a && b <= MERCATOR_MAX_LAT ==> ca < cb;
    LatitudeOrder(p, ca, cb);
    hide Scale;
    ScaleOrder(p.toY(cb), p.toY(ca), n);
  }

  /** A band of positive height around a world latitude is not an interior grid line. */
  lemma FlatBandIsFlat(p: Projection, v: Viewport, lat: real, n: nat)
    requires p.Mercator() && n > 0
    requires p.toLat(1.0) <= lat <= p.toLat(0.0) && v.minLat <= lat <= v.maxLat
    requires LatitudeToTileY(p, v.maxLat, n) == LatitudeToTileY(p, v.minLat, n)
    requires 0.0 < LatitudeToTileY(p, v.minLat, n) < n as real
    ensures v.minLat == v.maxLat
  {
    hide LatitudeToTileY;
    TileYOrder(p, v.minLat, lat, n);
    TileYOrder(p, lat, v.maxLat, n);
    WorldRow(p, lat, n);
    var low, high := v.minLat, v.maxLat;
    if low < lat {
      TileYOrder(p, if low < -MERCATOR_MAX_LAT then -MERCATOR_MAX_LAT else low, lat, n);
      BelowClamp(p, low, n);
      BottomRow(p, n);
    }
    if lat < high {
      TileYOrder(p, lat, if high > MERCATOR_MAX_LAT then MERCATOR_MAX_LAT else high, n);
      BelowClamp(p, high, n);
      BottomRow(p, n);
    }
  }

  lemma BelowClamp(p: Projection, lat: real, n: nat)
    ensures LatitudeToTileY(p, lat, n) == LatitudeToTileY(p, Clamp(lat, -MERCATOR_MAX_LAT, MERCATOR_MAX_LAT), n)
  {
  }

  lemma BottomRow(p: Projection, n: nat)
    requires p.Mercator() && n > 0
    ensures LatitudeToTileY(p, MERCATOR_MAX_LAT, n) <= 0.0
    ensures n as real <= LatitudeToTileY(p, -MERCATOR_MAX_LAT, n)
  {
    LatitudeOrder(p, p.toLat(0.0), MERCATOR_MAX_LAT);
    LatitudeOrder(p, -MERCATOR_MAX_LAT, p.toLat(1.0));
    hide Scale;
    ScaleWholes(0.0, n);
    ScaleOrder(p.toY(MERCATOR_MAX_LAT), 0.0, n);
    ScaleOrder(1.0, p.toY(-MERCATOR_MAX_LAT), n);
  }

  /** The requested row range holds the row of any world latitude of the viewport. */
  lemma RowCovers(p: Projection, v: Viewport, lat: real) returns (y: int)
    requires p.Mercator() && !LosesRow(p, v)
    requires p.toLat(1.0) <= lat <= p.toLat(0.0) && v.minLat <= lat <= v.maxLat
    ensures RootRange(p, v).firstY <= y <= RootRange(p, v).lastY && 0 <= y < Pow2(RootZoom(p, v))
    ensures y as real <= LatitudeToTileY(p, lat, Pow2(RootZoom(p, v))) <= (y + 1) as real
  {
    var n := Pow2(RootZoom(p, v));
    hide LatitudeToTileY, LongitudeToTileX, RootZoom, Pow2;
    var top, bottom := LatitudeToTileY(p, v.maxLat, n), LatitudeToTileY(p, v.minLat, n);
    TileYOrder(p, v.minLat, lat, n);
    TileYOrder(p, lat, v.maxLat, n);
    WorldRow(p, lat, n);
    if top == bottom && 0.0 < top < n as real {
      FlatBandIsFlat(p, v, lat, n);
    }
    y := RowFound(top, bottom, LatitudeToTileY(p, lat, n), n);
  }

  /** The requested column range holds the column of any world longitude of an ordinary viewport. */
  lemma OrdinaryColumnCovers(p: Projection, v: Viewport, at: Point) returns (x: int)
    requires p.Mercator() && OrdinaryShape(v) && !LosesColumn(p, v)
    requires InWorld(p, at) && InsideViewport(v, at)
    ensures RootRange(p, v).firstX <= x <= RootRange(p, v).lastX
    ensures ColumnHolds(x, LongitudeToTileX(at.lng, Pow2(RootZoom(p, v))), Pow2(RootZoom(p, v)))
  {
    var n := Pow2(RootZoom(p, v));
    hide LatitudeToTileY, LongitudeToTileX, RootZoom, Pow2, CanonicalX;
    var a, b := LongitudeToTileX(v.minLng, n), LongitudeToTileX(East(v), n);
    var t := LongitudeToTileX(at.lng, n);
    WorldColumn(at.lng, n);
    if East(v) - v.minLng >= 360.0 {
      x := if t == n as real then n - 1 else t.Floor;
      CanonicalIs(x, 0, n);
    } else {
      var k := if at.lng >= v.minLng then 0 else 1;
      TileXOrder(v.minLng, at.lng, n);
      TileXOrder(at.lng, v.minLng, n);
      TileXOrder(at.lng, East(v), n);
      TileXOrder(East(v), at.lng, n);
      TileXOrder(at.lng + 360.0, East(v), n);
      TileXOrder(East(v), at.lng + 360.0, n);
      TileXOrder(v.minLng, East(v), n);
      TileXOrder(East(v), v.minLng, n);
      TileXOrder(v.maxLng, at.lng, n);
      TileXOrder(180.0, at.lng, n);
      TileXOrder(at.lng, 180.0, n);
      x := ColumnFound(a, b, t, k, n);
    }
  }

  /** Any world coordinate has a column among `n` consecutive ones. */
  lemma FullTurnHolds(first: int, t: real, n: nat) returns (x: int)
    requires n > 0 && 0.0 <= t <= n as real
    ensures first <= x < first + n && ColumnHolds(x, t, n)
  {
    hide CanonicalX;
    var c := if t == n as real then n - 1 else t.Floor;
    var turns, rest := (c - first) / n, (c - first) % n;
    x := first + rest;
    assert x == c + (-turns) * n;
    CanonicalIs(c, -turns, n);
  }

  lemma BeyondRange(p: Projection, v: Viewport)
    requires !OrdinaryShape(v)
    ensures var n := Pow2(RootZoom(p, v));
            && RootRange(p, v).firstX == LongitudeToTileX(v.minLng, n).Floor
            && RootRange(p, v).lastX == Ceil(LongitudeToTileX(East(v), n)) - 1
  {
    hide LongitudeToTileX, LatitudeToTileY, RootZoom, Pow2;
  }

  /** A wrapped viewport that starts east of the world shows its longitudes from the antimeridian on. */
  lemma StartsBeyond(v: Viewport, at: Point, n: nat) returns (x: int)
    requires n > 0 && -180.0 <= at.lng <= 180.0 && at.lng <= v.maxLng && -180.0 < v.maxLng <= 180.0 < v.minLng
    requires LongitudeToTileX(v.minLng, n) < (n + 1) as real
    ensures LongitudeToTileX(v.minLng, n).Floor <= x <= Ceil(LongitudeToTileX(v.maxLng + 360.0, n)) - 1
    ensures ColumnHolds(x, LongitudeToTileX(at.lng, n), n)
  {
    hide LongitudeToTileX, CanonicalX, ColumnHolds;
    WorldColumn(at.lng, n);
    TileXOrder(180.0, v.minLng, n);
    TileXOrder(-180.0, v.maxLng, n);
    TileXOrder(v.maxLng, at.lng, n);
    TileXOrder(v.maxLng, v.maxLng, n);
    TileXOrder(180.0, v.maxLng, n);
    x := ColumnFound(n as real, LongitudeToTileX(v.maxLng + 360.0, n), LongitudeToTileX(at.lng, n), 1, n);
  }

  /** A wrapped viewport that ends west of the world shows its longitudes up to the antimeridian. */
  lemma EndsBeyond(v: Viewport, at: Point, n: nat) returns (x: int)
    requires n > 0 && -180.0 <= at.lng <= 180.0 && v.minLng <= at.lng && v.maxLng < -180.0 <= v.minLng < 180.0
    requires (n - 1) as real < LongitudeToTileX(v.maxLng + 360.0, n)
    ensures LongitudeToTileX(v.minLng, n).Floor <= x <= Ceil(LongitudeToTileX(v.maxLng + 360.0, n)) - 1
    ensures ColumnHolds(x, LongitudeToTileX(at.lng, n), n)
  {
    hide LongitudeToTileX, CanonicalX, ColumnHolds;
    WorldColumn(at.lng, n);
    TileXOrder(v.minLng, 180.0, n);
    TileXOrder(at.lng, v.minLng, n);
    var a, b, t := LongitudeToTileX(v.minLng, n), LongitudeToTileX(v.maxLng + 360.0, n), LongitudeToTileX(at.lng, n);
    assert 0 * n == 0 && a <= t <= n as real && a < n as real;
    x := ColumnFound(a, n as real, t, 0, n);
    assert x <= n - 1 <= Ceil(b) - 1;
  }

  /** The requested column range of a wrapped viewport that starts or ends beyond the world. */
  lemma BeyondColumnCovers(p: Projection, v: Viewport, at: Point) returns (x: int)
    requires p.Mercator() && !OrdinaryShape(v) && !LosesColumn(p, v)
    requires InWorld(p, at) && InsideViewport(v, at)
    ensures RootRange(p, v).firstX <= x <= RootRange(p, v).lastX
    ensures ColumnHolds(x, LongitudeToTileX(at.lng, Pow2(RootZoom(p, v))), Pow2(RootZoom(p, v)))
  {
    var n := Pow2(RootZoom(p, v));
    BeyondRange(p, v);
    hide LatitudeToTileY, LongitudeToTileX, RootZoom, RootRange, Pow2, CanonicalX, ColumnHolds;
    if WrapsWorld(v) {
      WorldColumn(at.lng, n);
      x := FullTurnHolds(LongitudeToTileX(v.minLng, n).Floor, LongitudeToTileX(at.lng, n), n);
    } else if v.minLng > 180.0 {
      x := StartsBeyond(v, at, n);
    } else {
      x := EndsBeyond(v, at, n);
    }
  }

  lemma RootRangeRows(p: Projection, v: Viewport)
    ensures RootRange(p, v).z == RootZoom(p, v)
    ensures 0 <= RootRange(p, v).firstY && RootRange(p, v).lastY <= Pow2(RootZoom(p, v)) - 1
  {
    hide RootZoom, Pow2, LatitudeToTileY, LongitudeToTileX;
  }

  lemma PointCovered(p: Projection, v: Viewport, at: Point)
    requires p.Mercator() && !LosesPoint(p, v)
    requires InWorld(p, at) && InsideViewport(v, at)
    ensures Covered(p, v, at)
  {
    hide LosesColumn, LosesRow, OrdinaryShape, LongitudeToTileX, LatitudeToTileY, CanonicalX, RootZoom, Pow2,
         RootRange, InTile;
    RootRangeRows(p, v);
    var x;
    if OrdinaryShape(v) { x := OrdinaryColumnCovers(p, v, at); } else { x := BeyondColumnCovers(p, v, at); }
    var y := RowCovers(p, v, at.lat);
    var tile := Tile(RootZoom(p, v), CanonicalX(x, Pow2(RootZoom(p, v))), y);
    InTileCoordinates(p, tile, at);
    assert InRange(RootRange(p, v), tile);
  }

  /** A covered point lies in a requested row and a requested column. */
  lemma CoveredCoordinates(p: Projection, v: Viewport, at: Point) returns (x: int, y: int)
    requires p.Mercator() && InWorld(p, at) && Covered(p, v, at)
    ensures var n := Pow2(RootZoom(p, v));
            && RootRange(p, v).firstX <= x <= RootRange(p, v).lastX
            && ColumnHolds(x, LongitudeToTileX(at.lng, n), n)
            && RootRange(p, v).firstY <= y <= RootRange(p, v).lastY
            && y as real <= LatitudeToTileY(p, at.lat, n) <= (y + 1) as real
  {
    hide LongitudeToTileX, LatitudeToTileY, CanonicalX, RootZoom, Pow2, RootRange, InTile;
    RootRangeRows(p, v);
    var tile :| InRange(RootRange(p, v), tile) && InTile(p, tile, at);
    InTileCoordinates(p, tile, at);
    x :| RootRange(p, v).firstX <= x <= RootRange(p, v).lastX && CanonicalX(x, Pow2(RootZoom(p, v))) == tile.x;
    y := tile.y;
  }

  /** The middle of the column east of the requested ones. */
  function LeftOverLongitude(p: Projection, v: Viewport): real {
    var n := Pow2(RootZoom(p, v));
    MiddleLongitude(CanonicalX(Ceil(LongitudeToTileX(East(v), n)), n), n)
  }

  function MiddleLongitude(column: int, n: nat): real
    requires n > 0
  {
    (column as real + 0.5) / n as real * 360.0 - 180.0
  }

  lemma MiddleOfColumn(column: int, n: nat)
    requires 0 <= column < n
    ensures LongitudeToTileX(MiddleLongitude(column, n), n) == column as real + 0.5
    ensures -180.0 <= MiddleLongitude(column, n) <= 180.0
  {
    var q := (column as real + 0.5) / n as real;
    assert (MiddleLongitude(column, n) + 180.0) / 360.0 == q;
    assert q * n as real == column as real + 0.5;
    ScaleWholes(0.0, n);
    ScaleOrder(0.0, q, n);
    ScaleOrder(q, 1.0, n);
  }

  /** A world longitude of the viewport: the one a viewport that loses a column loses. */
  function LostLongitude(p: Projection, v: Viewport): real {
    if WrapsWorld(v) then LeftOverLongitude(p, v)
    else if Wrapped(v) && v.minLng > 180.0 then -180.0
    else if Wrapped(v) && v.maxLng < -180.0 then 180.0
    else if v.minLng == 180.0 || v.maxLng == -180.0 then (if v.minLng == 180.0 then 180.0 else -180.0)
    else if -180.0 <= v.minLng then v.minLng
    else if v.maxLng <= 180.0 then v.maxLng
    else 0.0
  }

  /** A world point of the viewport: the one a losing viewport loses. */
  function LostPoint(p: Projection, v: Viewport): Point {
    Point(LostLongitude(p, v), if v.minLat < p.toLat(1.0) then p.toLat(1.0) else v.minLat)
  }

  lemma LostPointIsShown(p: Projection, v: Viewport)
    requires p.Mercator() && MeetsWorld(p, v)
    ensures InWorld(p, LostPoint(p, v)) && InsideViewport(v, LostPoint(p, v))
  {
    LatitudeOrder(p, p.toLat(1.0), p.toLat(0.0));
    hide LongitudeToTileX, RootZoom, Pow2, MiddleLongitude;
    var n := Pow2(RootZoom(p, v));
    MiddleOfColumn(CanonicalX(Ceil(LongitudeToTileX(East(v), n)), n), n);
  }

  /** The canonical column of `x` is the same, whole turns of the world away. */
  lemma ColumnTurns(x: int, base: int, k: int, n: nat)
    requires n > 0 && base == k * n
    requires base <= x < base + n
    ensures CanonicalX(x, n) == x - base
  {
    CanonicalIs(x - base, k, n);
  }

  /** From the eastern side of the antimeridian, less than a full turn, column `n - 1` is absent. */
  lemma EastSideMisses(b: real, x: int, n: nat)
    requires n > 0 && n <= x <= Ceil(b) - 1 && b <= n as real + n as real - 1.0
    ensures !ColumnHolds(x, n as real, n)
  {
    ColumnTurns(x, n, 1, n);
  }

  /** Up to the western side of the antimeridian, less than a full turn, column `0` is absent. */
  lemma WestSideMisses(a: real, k: int, x: int, n: nat)
    requires n > 0 && a.Floor <= x <= k * n - 1 && (k * n) as real - n as real + 1.0 <= a
    ensures !ColumnHolds(x, 0.0, n)
  {
    assert (k - 1) * n == k * n - n;
    ColumnTurns(x, (k - 1) * n, k - 1, n);
  }

  lemma OrdinaryColumnLost(p: Projection, v: Viewport, x: int)
    requires OrdinaryShape(v) && LosesColumn(p, v)
    requires RootRange(p, v).firstX <= x <= RootRange(p, v).lastX
    ensures !ColumnHolds(x, LongitudeToTileX(LostLongitude(p, v), Pow2(RootZoom(p, v))), Pow2(RootZoom(p, v)))
  {
    var n := Pow2(RootZoom(p, v));
    hide LongitudeToTileX, LatitudeToTileY, RootZoom, Pow2, CanonicalX, ColumnHolds, LeftOverLongitude;
    var a, b := LongitudeToTileX(v.minLng, n), LongitudeToTileX(East(v), n);
    TileXOrder(v.minLng, East(v), n);
    TileXOrder(-180.0, v.minLng, n);
    if v.minLng == 180.0 && v.minLng != v.maxLng {
      EastSideMisses(b, x, n);
    } else if v.minLng != v.maxLng {
      var k := if v.maxLng < v.minLng then 1 else 0;
      assert k * n == if k == 1 then n else 0;
      WestSideMisses(a, k, x, n);
    }
  }

  /** Columns less than a full turn apart are different in the world. */
  lemma DifferentColumns(x: int, y: int, n: nat)
    requires n > 0 && 0 < y - x < n
    ensures CanonicalX(x, n) != CanonicalX(y, n)
  {
    hide CanonicalX;
    var t :| x == CanonicalX(x, n) + t * n;
    var u :| y == CanonicalX(y, n) + u * n;
    if CanonicalX(x, n) == CanonicalX(y, n) {
      assert y - x == (u - t) * n;
      MultipleIsFar(u - t, n);
    }
  }

  lemma BeyondColumnLost(p: Projection, v: Viewport, x: int)
    requires !OrdinaryShape(v) && LosesColumn(p, v) && MeetsWorld(p, v)
    requires RootRange(p, v).firstX <= x <= RootRange(p, v).lastX
    ensures !ColumnHolds(x, LongitudeToTileX(LostLongitude(p, v), Pow2(RootZoom(p, v))), Pow2(RootZoom(p, v)))
  {
    var n := Pow2(RootZoom(p, v));
    hide LongitudeToTileX, LatitudeToTileY, RootZoom, Pow2, CanonicalX, MiddleLongitude;
    var a, b := LongitudeToTileX(v.minLng, n), LongitudeToTileX(East(v), n);
    TileXOrder(v.minLng, East(v), n);
    TileXOrder(180.0, v.minLng, n);
    TileXOrder(v.minLng, 180.0, n);
    TileXOrder(v.minLng, -180.0, n);
    TileXOrder(180.0, v.maxLng, n);
    TileXOrder(v.maxLng, -180.0, n);
    if WrapsWorld(v) {
      MiddleOfColumn(CanonicalX(Ceil(b), n), n);
      DifferentColumns(x, Ceil(b), n);
    } else if v.minLng > 180.0 {
      ColumnTurns(x, n, 1, n);
    } else {
      ColumnTurns(x, 0, 0, n);
    }
  }

  lemma LostRowHasNone(p: Projection, v: Viewport, y: int)
    requires LosesRow(p, v)
    ensures !(RootRange(p, v).firstY <= y <= RootRange(p, v).lastY)
  {
    hide LongitudeToTileX, LatitudeToTileY, RootZoom, Pow2;
  }

  lemma LostPointIsLost(p: Projection, v: Viewport)
    requires p.Mercator() && MeetsWorld(p, v) && LosesPoint(p, v)
    ensures !Covered(p, v, LostPoint(p, v))
  {
    LostPointIsShown(p, v);
    hide LongitudeToTileX, LatitudeToTileY, RootZoom, Pow2, Covered, CanonicalX, ColumnHolds, RootRange, OrdinaryShape,
         LosesColumn, LosesRow, LostLongitude, MeetsWorld;
    if Covered(p, v, LostPoint(p, v)) {
      var x, y := CoveredCoordinates(p, v, LostPoint(p, v));
      if LosesColumn(p, v) {
        if OrdinaryShape(v) { OrdinaryColumnLost(p, v, x); } else { BeyondColumnLost(p, v, x); }
      } else {
        LostRowHasNone(p, v, y);
      }
    }
  }

  /** Exactly which viewports are fully covered by their root tiles. */
  lemma RootTilesCoverViewport(p: Projection, v: Viewport)
    requires p.Mercator() && MeetsWorld(p, v)
    ensures (forall at :: InWorld(p, at) && InsideViewport(v, at) ==> Covered(p, v, at)) <==> !LosesPoint(p, v)
  {
    hide *;
    if LosesPoint(p, v) {
      LostPointIsShown(p, v);
      LostPointIsLost(p, v);
    } else {
      forall at | InWorld(p, at) && InsideViewport(v, at)
        ensures Covered(p, v, at)
      {
        PointCovered(p, v, at);
      }
    }
  }

  /** A viewport with positive extent that keeps clear of the antimeridian is fully covered. */
  lemma ClearViewportCovered(p: Projection, v: Viewport)
    requires OrdinaryShape(v)
    requires v.minLng != v.maxLng && v.minLat != v.maxLat && v.minLng != 180.0 && v.maxLng != -180.0
    ensures !LosesPoint(p, v)
  {
  }

  /** `Mercator` is satisfiable: here is one projection. */
  lemma LinearProjectionIsMercator()
    ensures Projection(lat => (1.0 - lat / MERCATOR_MAX_LAT) / 2.0,
                       t => MERCATOR_MAX_LAT * (1.0 - 2.0 * t)).Mercator()
  {
    var p := Projection(lat => (1.0 - lat / MERCATOR_MAX_LAT) / 2.0, t => MERCATOR_MAX_LAT * (1.0 - 2.0 * t));
    forall a: real, b: real | -MERCATOR_MAX_LAT <= a < b <= MERCATOR_MAX_LAT
      ensures p.toY(b) < p.toY(a)
    {
    }
    forall t: real | 0.0 <= t <= 1.0
      ensures p.toY(p.toLat(t)) == t
    {
    }
  }

  /** A zoom-ten viewport with its west edge on the antimeridian, ten degrees wide, is one that loses points. */
  lemma EastOfAntimeridianLoses(p: Projection)
    ensures LosesPoint(p, Viewport(180.0, -10.0, 190.0, 10.0, 10.0))
  {
    var v := Viewport(180.0, -10.0, 190.0, 10.0, 10.0);
    assert Pow2(10) == 1024;
    assert RootZoom(p, v) == 10;
  }
}
