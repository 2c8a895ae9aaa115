/**
 The three-dimensional grid index of the capacity report
 (`_grid_cell`, `_neighbor_cells` and the loops of `build_capacity_coverage` in
 backend/scripts/report_capacity_match_coverage.py).

 The projection to earth-centred coordinates and the great-circle distance are parameters;
 the one fact used is that no coordinate differs by more than the distance.
 */
module CapacityGrid {
  import opened RealAlgebra

  const PERMIT_CAFE_ENTITY_MAX_DISTANCE_M: real := 50.0

  datatype Site = Site(latitude: real, longitude: real)

  datatype Cafe = Cafe(id: int, site: Site)

  datatype Permit = Permit(id: int, site: Site)

  /** Earth-centred coordinates in metres. */
  datatype Ecef = Ecef(x: real, y: real, z: real)

  datatype Earth = Earth(ecef: Site -> Ecef, distance: (Site, Site) -> real) {

    /** The chord, and with it each coordinate difference, is at most the great-circle distance. */
    ghost predicate ChordWithinArc() {
      forall a: Site, b: Site ::
        && -distance(a, b) <= ecef(a).x - ecef(b).x <= distance(a, b)
        && -distance(a, b) <= ecef(a).y - ecef(b).y <= distance(a, b)
        && -distance(a, b) <= ecef(a).z - ecef(b).z <= distance(a, b)
    }
  }

  datatype Cell = Cell(x: int, y: int, z: int)

  function GridCell(earth: Earth, site: Site): Cell {
    var p := earth.ecef(site);
    Cell((p.x / PERMIT_CAFE_ENTITY_MAX_DISTANCE_M).Floor, (p.y / PERMIT_CAFE_ENTITY_MAX_DISTANCE_M).Floor,
         (p.z / PERMIT_CAFE_ENTITY_MAX_DISTANCE_M).Floor)
  }

  /** The 27 cells around a cell, in the order the generator yields them. */
  function NeighborCells(cell: Cell): (cells: seq<Cell>)
    ensures |cells| == 27
  {
    seq(27, k requires 0 <= k < 27 => Cell(cell.x + k / 9 - 1, cell.y + k / 3 % 3 - 1, cell.z + k % 3 - 1))
  }

  predicate Adjoins(a: Cell, b: Cell) {
    -1 <= a.x - b.x <= 1 && -1 <= a.y - b.y <= 1 && -1 <= a.z - b.z <= 1
  }

  /** The neighbours are exactly the adjoining cells, and none is listed twice. */
  lemma NeighborsAreAdjoining(cell: Cell)
    ensures forall other :: other in NeighborCells(cell) <==> Adjoins(cell, other)
    ensures forall i, j :: 0 <= i < j < 27 ==> NeighborCells(cell)[i] != NeighborCells(cell)[j]
  {
    var cells := NeighborCells(cell);
    forall k: nat | k < 27
      ensures Adjoins(cell, cells[k]) && CellIndex(cell, cells[k]) == k
    {
      DigitsAt(k);
    }
    assert forall i: nat, j: nat :: i < j < 27 ==> CellIndex(cell, cells[i]) != CellIndex(cell, cells[j]);
    forall other | Adjoins(cell, other)
      ensures other in cells
    {
      var dx, dy, dz := other.x - cell.x + 1, other.y - cell.y + 1, other.z - cell.z + 1;
      DigitsOf(dx, dy, dz);
      assert cells[9 * dx + 3 * dy + dz] == other;
    }
  }

  /** The place of a cell among the neighbours. */
  function CellIndex(cell: Cell, other: Cell): int {
    9 * (other.x - cell.x + 1) + 3 * (other.y - cell.y + 1) + (other.z - cell.z + 1)
  }

  lemma DigitsAt(k: nat)
    requires k < 27
    ensures 0 <= k / 9 <= 2 && 0 <= k / 3 % 3 <= 2 && 0 <= k % 3 <= 2 && 9 * (k / 9) + 3 * (k / 3 % 3) + k % 3 == k
  {
  }

  lemma DigitsOf(dx: int, dy: int, dz: int)
    requires 0 <= dx <= 2 && 0 <= dy <= 2 && 0 <= dz <= 2
    ensures var k := 9 * dx + 3 * dy + dz; 0 <= k < 27 && k / 9 == dx && k / 3 % 3 == dy && k % 3 == dz
  {
  }

  lemma FloorsAdjoin(a: real, b: real)
    requires -PERMIT_CAFE_ENTITY_MAX_DISTANCE_M <= a - b <= PERMIT_CAFE_ENTITY_MAX_DISTANCE_M
    ensures -1 <= (a / PERMIT_CAFE_ENTITY_MAX_DISTANCE_M).Floor - (b / PERMIT_CAFE_ENTITY_MAX_DISTANCE_M).Floor <= 1
  {
  }

  /** Sites within the distance limit lie in the same or adjoining cells. */
  lemma CloseSitesAdjoin(earth: Earth, a: Site, b: Site)
    requires earth.ChordWithinArc() && earth.distance(a, b) <= PERMIT_CAFE_ENTITY_MAX_DISTANCE_M
    ensures Adjoins(GridCell(earth, a), GridCell(earth, b))
  {
    FloorsAdjoin(earth.ecef(a).x, earth.ecef(b).x);
    FloorsAdjoin(earth.ecef(a).y, earth.ecef(b).y);
    FloorsAdjoin(earth.ecef(a).z, earth.ecef(b).z);
  }

  // ---------------------------------------------------------------------------------------
  // The grid and its lookups
  // ---------------------------------------------------------------------------------------

  type Grid = map<Cell, seq<Cafe>>

  function At(grid: Grid, cell: Cell): seq<Cafe> {
    if cell in grid then grid[cell] else []
  }

  function InCell(earth: Earth, cafes: seq<Cafe>, cell: Cell): seq<Cafe> {
    if cafes == [] then []
    else
      var last := cafes[|cafes| - 1];
      InCell(earth, cafes[..|cafes| - 1], cell) + (if GridCell(earth, last.site) == cell then [last] else [])
  }

  /** Filling the grid: each cell lists its cafes in input order. */
  method BuildGrid(earth: Earth, cafes: seq<Cafe>) returns (grid: Grid)
    ensures forall cell :: At(grid, cell) == InCell(earth, cafes, cell)
  {
    grid := map[];
    var i := 0;
    while i < |cafes|
      invariant 0 <= i <= |cafes|
      invariant forall cell :: At(grid, cell) == InCell(earth, cafes[..i], cell)
    {
      assert cafes[..i + 1][..i] == cafes[..i];
      var cell := GridCell(earth, cafes[i].site);
      grid := grid[cell := At(grid, cell) + [cafes[i]]];
      i := i + 1;
    }
    assert cafes[..i] == cafes;
  }

  function Occurrences(s: seq<Cafe>, c: Cafe): nat {
    if s == [] then 0 else Occurrences(s[..|s| - 1], c) + (if s[|s| - 1] == c then 1 else 0)
  }

  lemma {:induction false} OccurrencesAdd(a: seq<Cafe>, b: seq<Cafe>, c: Cafe)
    ensures Occurrences(a + b, c) == Occurrences(a, c) + Occurrences(b, c)
  {
    if b == [] {
      assert a + b == a;
    } else {
      assert (a + b)[..|a + b| - 1] == a + b[..|b| - 1];
      OccurrencesAdd(a, b[..|b| - 1], c);
    }
  }

  lemma {:induction false} OccurrencesInCell(earth: Earth, cafes: seq<Cafe>, cell: Cell, c: Cafe)
    ensures Occurrences(InCell(earth, cafes, cell), c) ==
            if GridCell(earth, c.site) == cell then Occurrences(cafes, c) else 0
  {
    hide GridCell;
    if cafes != [] {
      var before, last := cafes[..|cafes| - 1], cafes[|cafes| - 1];
      OccurrencesInCell(earth, before, cell, c);
      OccurrencesAdd(InCell(earth, before, cell), if GridCell(earth, last.site) == cell then [last] else [], c);
    }
  }

  /** The cafes of the listed cells, one cell after the other. */
  function Gather(grid: Grid, cells: seq<Cell>): seq<Cafe> {
    if cells == [] then [] else Gather(grid, cells[..|cells| - 1]) + At(grid, cells[|cells| - 1])
  }

  lemma {:induction false} OccurrencesGathered(earth: Earth, cafes: seq<Cafe>, grid: Grid, cells: seq<Cell>, c: Cafe)
    requires forall cell :: At(grid, cell) == InCell(earth, cafes, cell)
    requires forall i, j :: 0 <= i < j < |cells| ==> cells[i] != cells[j]
    ensures Occurrences(Gather(grid, cells), c) ==
            if GridCell(earth, c.site) in cells then Occurrences(cafes, c) else 0
  {
    hide GridCell, InCell;
    if cells != [] {
      var before, last := cells[..|cells| - 1], cells[|cells| - 1];
      assert cells == before + [last];
      OccurrencesGathered(earth, cafes, grid, before, c);
      OccurrencesInCell(earth, cafes, last, c);
      OccurrencesAdd(Gather(grid, before), At(grid, last), c);
    }
  }

  /** Looking a site up: every cafe in an adjoining cell as often as it was put in, no other. */
  method Nearby(earth: Earth, grid: Grid, site: Site, ghost cafes: seq<Cafe>) returns (nearby: seq<Cafe>)
    requires forall cell :: At(grid, cell) == InCell(earth, cafes, cell)
    ensures nearby == Gather(grid, NeighborCells(GridCell(earth, site)))
    ensures forall c :: Occurrences(nearby, c) ==
                        if Adjoins(GridCell(earth, site), GridCell(earth, c.site)) then Occurrences(cafes, c) else 0
  {
    hide GridCell, InCell, Occurrences, NeighborCells;
    var cells := NeighborCells(GridCell(earth, site));
    nearby := [];
    var k := 0;
    while k < |cells|
      invariant 0 <= k <= |cells|
      invariant nearby == Gather(grid, cells[..k])
    {
      assert cells[..k + 1][..k] == cells[..k];
      nearby := nearby + At(grid, cells[k]);
      k := k + 1;
    }
    assert cells[..k] == cells;
    NeighborsAreAdjoining(GridCell(earth, site));
    forall c: Cafe
      ensures Occurrences(nearby, c) ==
              if Adjoins(GridCell(earth, site), GridCell(earth, c.site)) then Occurrences(cafes, c) else 0
    {
      OccurrencesGathered(earth, cafes, grid, cells, c);
    }
  }

  // ---------------------------------------------------------------------------------------
  // Gate counts
  // ---------------------------------------------------------------------------------------

  /** A stage of the report: a test of a permit and a cafe made behind the distance gate. */
  type Stage = (Permit, Cafe) -> bool

  predicate Passes(earth: Earth, stage: Stage, permit: Permit, c: Cafe) {
    earth.distance(permit.site, c.site) <= PERMIT_CAFE_ENTITY_MAX_DISTANCE_M && stage(permit, c)
  }

  /** How many of the cafes pass the stage for one permit. */
  function CountPassing(earth: Earth, stage: Stage, permit: Permit, cafes: seq<Cafe>): nat {
    if cafes == [] then 0
    else CountPassing(earth, stage, permit, cafes[..|cafes| - 1])
         + (if Passes(earth, stage, permit, cafes[|cafes| - 1]) then 1 else 0)
  }

  /** The same, counting only cafes of the listed cells. */
  ghost function CountPassingIn(earth: Earth, stage: Stage, permit: Permit, cafes: seq<Cafe>, cells: seq<Cell>): nat {
    if cafes == [] then 0
    else
      var last := cafes[|cafes| - 1];
      CountPassingIn(earth, stage, permit, cafes[..|cafes| - 1], cells)
      + (if GridCell(earth, last.site) in cells && Passes(earth, stage, permit, last) then 1 else 0)
  }

  lemma {:induction false} CountPassingAdds(earth: Earth, stage: Stage, permit: Permit, a: seq<Cafe>, b: seq<Cafe>)
    ensures CountPassing(earth, stage, permit, a + b) ==
            CountPassing(earth, stage, permit, a) + CountPassing(earth, stage, permit, b)
  {
    if b == [] {
      assert a + b == a;
    } else {
      assert (a + b)[..|a + b| - 1] == a + b[..|b| - 1];
      CountPassingAdds(earth, stage, permit, a, b[..|b| - 1]);
    }
  }

  /** One more distinct cell adds the passing cafes of that cell. */
  lemma {:induction false} OneMoreCell(
      earth: Earth, stage: Stage, permit: Permit, cafes: seq<Cafe>, cells: seq<Cell>, cell: Cell)
    requires cell !in cells
    ensures CountPassingIn(earth, stage, permit, cafes, cells + [cell]) ==
            CountPassingIn(earth, stage, permit, cafes, cells)
            + CountPassing(earth, stage, permit, InCell(earth, cafes, cell))
  {
    hide GridCell, Passes;
    if cafes != [] {
      var before, last := cafes[..|cafes| - 1], cafes[|cafes| - 1];
      var here := if GridCell(earth, last.site) == cell then [last] else [];
      OneMoreCell(earth, stage, permit, before, cells, cell);
      CountPassingAdds(earth, stage, permit, InCell(earth, before, cell), here);
      assert CountPassing(earth, stage, permit, here) ==
             if GridCell(earth, last.site) == cell && Passes(earth, stage, permit, last) then 1 else 0;
    }
  }

  lemma {:induction false} NoCells(earth: Earth, stage: Stage, permit: Permit, cafes: seq<Cafe>)
    ensures CountPassingIn(earth, stage, permit, cafes, []) == 0
  {
    if cafes != [] { NoCells(earth, stage, permit, cafes[..|cafes| - 1]); }
  }

  lemma {:induction false} GatheredPassing(
      earth: Earth, stage: Stage, permit: Permit, cafes: seq<Cafe>, grid: Grid, cells: seq<Cell>)
    requires forall cell :: At(grid, cell) == InCell(earth, cafes, cell)
    requires forall i, j :: 0 <= i < j < |cells| ==> cells[i] != cells[j]
    ensures CountPassing(earth, stage, permit, Gather(grid, cells)) ==
            CountPassingIn(earth, stage, permit, cafes, cells)
  {
    hide GridCell, Passes, InCell;
    if cells == [] {
      NoCells(earth, stage, permit, cafes);
    } else {
      var before, last := cells[..|cells| - 1], cells[|cells| - 1];
      assert cells == before + [last];
      GatheredPassing(earth, stage, permit, cafes, grid, before);
      OneMoreCell(earth, stage, permit, cafes, before, last);
      CountPassingAdds(earth, stage, permit, Gather(grid, before), At(grid, last));
    }
  }

  lemma {:induction false} PassingAreNear(
      earth: Earth, stage: Stage, permit: Permit, cafes: seq<Cafe>, cells: seq<Cell>)
    requires earth.ChordWithinArc() && cells == NeighborCells(GridCell(earth, permit.site))
    ensures CountPassingIn(earth, stage, permit, cafes, cells) == CountPassing(earth, stage, permit, cafes)
  {
    hide GridCell, NeighborCells, Adjoins;
    if cafes != [] {
      var last := cafes[|cafes| - 1];
      PassingAreNear(earth, stage, permit, cafes[..|cafes| - 1], cells);
      NeighborsAreAdjoining(GridCell(earth, permit.site));
      if Passes(earth, stage, permit, last) {
        CloseSitesAdjoin(earth, permit.site, last.site);
      }
    }
  }

  /** Counting over the looked-up cafes is counting over all cafes, at every stage. */
  lemma LookupLosesNothing(earth: Earth, stage: Stage, permit: Permit, cafes: seq<Cafe>, grid: Grid)
    requires earth.ChordWithinArc()
    requires forall cell :: At(grid, cell) == InCell(earth, cafes, cell)
    ensures CountPassing(earth, stage, permit, Gather(grid, NeighborCells(GridCell(earth, permit.site)))) ==
            CountPassing(earth, stage, permit, cafes)
  {
    hide GridCell, Passes, InCell, NeighborCells;
    var cells := NeighborCells(GridCell(earth, permit.site));
    NeighborsAreAdjoining(GridCell(earth, permit.site));
    GatheredPassing(earth, stage, permit, cafes, grid, cells);
    PassingAreNear(earth, stage, permit, cafes, cells);
  }

  /** All pairs of a permit and a cafe that pass. */
  ghost function PassingPairs(earth: Earth, stage: Stage, permits: seq<Permit>, cafes: seq<Cafe>): nat {
    if permits == [] then 0
    else PassingPairs(earth, stage, permits[..|permits| - 1], cafes)
         + CountPassing(earth, stage, permits[|permits| - 1], cafes)
  }

  /** Permits with at least one passing cafe. */
  ghost function PassingPermits(earth: Earth, stage: Stage, permits: seq<Permit>, cafes: seq<Cafe>): nat {
    if permits == [] then 0
    else PassingPermits(earth, stage, permits[..|permits| - 1], cafes)
         + (if CountPassing(earth, stage, permits[|permits| - 1], cafes) > 0 then 1 else 0)
  }

  /** A cafe within fifty metres of the permit that the stage accepts. */
  predicate Matches(earth: Earth, stage: Stage, permit: Permit, c: Cafe) {
    earth.distance(permit.site, c.site) <= 50.0 && stage(permit, c)
  }

  /** The positions of the cafes that match one permit. */
  ghost function Matching(earth: Earth, stage: Stage, permit: Permit, cafes: seq<Cafe>): set<nat> {
    set j: nat | j < |cafes| && Matches(earth, stage, permit, cafes[j])
  }

  lemma {:induction false} CountPassingCounts(earth: Earth, stage: Stage, permit: Permit, cafes: seq<Cafe>)
    ensures CountPassing(earth, stage, permit, cafes) == |Matching(earth, stage, permit, cafes)|
  {
    if cafes == [] {
      assert Matching(earth, stage, permit, cafes) == {};
    } else {
      var n := |cafes| - 1;
      CountPassingCounts(earth, stage, permit, cafes[..n]);
      assert Matching(earth, stage, permit, cafes) ==
             Matching(earth, stage, permit, cafes[..n])
             + if Passes(earth, stage, permit, cafes[n]) then {n} else {};
    }
  }

  /** The positions of the permits and cafes that match each other. */
  ghost function MatchingPairs(earth: Earth, stage: Stage, permits: seq<Permit>, cafes: seq<Cafe>): set<(nat, nat)> {
    set i: nat, j: nat | i < |permits| && j < |cafes| && Matches(earth, stage, permits[i], cafes[j]) :: (i, j)
  }

  /** The positions of the permits that match a cafe. */
  ghost function MatchingPermits(earth: Earth, stage: Stage, permits: seq<Permit>, cafes: seq<Cafe>): set<nat> {
    set i: nat | i < |permits| && exists j: nat :: j < |cafes| && Matches(earth, stage, permits[i], cafes[j])
  }

  ghost function PairsWith(i: nat, js: set<nat>): set<(nat, nat)> {
    set j | j in js :: (i, j)
  }

  lemma {:induction false} AsManyPairs(i: nat, js: set<nat>)
    ensures |PairsWith(i, js)| == |js|
  {
    if js == {} {
      assert PairsWith(i, js) == {};
    } else {
      var j :| j in js;
      AsManyPairs(i, js - {j});
      assert (i, j) !in PairsWith(i, js - {j});
      assert PairsWith(i, js) == PairsWith(i, js - {j}) + {(i, j)};
    }
  }

  /** One more permit adds its pairs, and itself if it has one. */
  lemma OneMorePermit(earth: Earth, stage: Stage, permits: seq<Permit>, cafes: seq<Cafe>)
    requires permits != []
    ensures var n := |permits| - 1;
            var before, last := permits[..n], Matching(earth, stage, permits[n], cafes);
            && MatchingPairs(earth, stage, permits, cafes) ==
               MatchingPairs(earth, stage, before, cafes) + PairsWith(n, last)
            && MatchingPairs(earth, stage, before, cafes) !! PairsWith(n, last)
            && MatchingPermits(earth, stage, permits, cafes) ==
               MatchingPermits(earth, stage, before, cafes) + (if last == {} then {} else {n})
            && n !in MatchingPermits(earth, stage, before, cafes)
  {
    hide Matches;
    var n := |permits| - 1;
    var last := Matching(earth, stage, permits[n], cafes);
    if j: nat :| j < |cafes| && Matches(earth, stage, permits[n], cafes[j]) {
      assert j in last;
    }
  }

  /**
   What the counters count: the pairs of a permit and a cafe within fifty metres that the stage accepts, and the
   permits that have one.
   */
  lemma {:induction false} CountersCountMatches(earth: Earth, stage: Stage, permits: seq<Permit>, cafes: seq<Cafe>)
    ensures PassingPairs(earth, stage, permits, cafes) == |MatchingPairs(earth, stage, permits, cafes)|
    ensures PassingPermits(earth, stage, permits, cafes) == |MatchingPermits(earth, stage, permits, cafes)|
  {
    hide CountPassing, Matching, PairsWith;
    if permits == [] {
      assert MatchingPairs(earth, stage, permits, cafes) == {};
      assert MatchingPermits(earth, stage, permits, cafes) == {};
    } else {
      var n := |permits| - 1;
      CountersCountMatches(earth, stage, permits[..n], cafes);
      OneMorePermit(earth, stage, permits, cafes);
      CountPassingCounts(earth, stage, permits[n], cafes);
      AsManyPairs(n, Matching(earth, stage, permits[n], cafes));
      hide MatchingPairs, MatchingPermits;
    }
  }

  /** The loop over the looked-up cafes of one permit. */
  method CountHits(earth: Earth, stage: Stage, permit: Permit, nearby: seq<Cafe>) returns (hits: nat)
    ensures hits == CountPassing(earth, stage, permit, nearby)
  {
    hits := 0;
    var k := 0;
    while k < |nearby|
      invariant 0 <= k <= |nearby|
      invariant hits == CountPassing(earth, stage, permit, nearby[..k])
    {
      assert nearby[..k + 1][..k] == nearby[..k];
      if Passes(earth, stage, permit, nearby[k]) {
        hits := hits + 1;
      }
      k := k + 1;
    }
    assert nearby[..k] == nearby;
  }

  /** The counting loops, for one stage: the index gives the counts of the all-pairs comparison. */
  method CountGate(earth: Earth, stage: Stage, permits: seq<Permit>, cafes: seq<Cafe>)
    returns (pairCount: nat, permitCount: nat)
    requires earth.ChordWithinArc()
    ensures pairCount == PassingPairs(earth, stage, permits, cafes)
    ensures permitCount == PassingPermits(earth, stage, permits, cafes)
  {
    hide GridCell, InCell, NeighborCells, Passes, Occurrences, Adjoins, Gather, CountPassing;
    var grid := BuildGrid(earth, cafes);
    pairCount, permitCount := 0, 0;
    var i := 0;
    while i < |permits|
      invariant 0 <= i <= |permits|
      invariant pairCount == PassingPairs(earth, stage, permits[..i], cafes)
      invariant permitCount == PassingPermits(earth, stage, permits[..i], cafes)
    {
      var nearby := Nearby(earth, grid, permits[i].site, cafes);
      var hits := CountHits(earth, stage, permits[i], nearby);
      LookupLosesNothing(earth, stage, permits[i], cafes, grid);
      pairCount := pairCount + hits;
      if hits > 0 {
        permitCount := permitCount + 1;
      }
      assert permits[..i + 1][..i] == permits[..i];
      i := i + 1;
    }
    assert permits[..i] == permits;
  }
}
