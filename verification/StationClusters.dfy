/**
 Grouping the rows of one station name into stations
 (`build_stations` in backend/scripts/build_subway_assets.py): union-find over the pairs
 of rows within the distance limit, with path halving and union towards the least index.
 */
module StationClusters {

  const SUBWAY_STATION_CLUSTER_MAX_M: real := 350.0

  datatype Coordinate = Coordinate(lng: real, lat: real)

  /** The distance between two coordinates, in metres. */
  type Distance = (Coordinate, Coordinate) -> real

  // ---------------------------------------------------------------------------------------
  // Forests
  // ---------------------------------------------------------------------------------------

  /** Parents never point upwards. */
  ghost predicate Forest(parents: seq<nat>) {
    forall i :: 0 <= i < |parents| ==> parents[i] <= i
  }

  ghost function Root(parents: seq<nat>, i: nat): (r: nat)
    requires Forest(parents) && i < |parents|
    ensures r <= i && parents[r] == r
    decreases i
  {
    if parents[i] == i then i else Root(parents, parents[i])
  }

  ghost predicate SameRoots(p: seq<nat>, q: seq<nat>)
    requires Forest(p)
  {
    && |p| == |q| && Forest(q)
    && forall k :: 0 <= k < |p| ==> Root(q, k) == Root(p, k)
  }

  lemma {:induction false} RootOfRoot(p: seq<nat>, i: nat)
    requires Forest(p) && i < |p|
    ensures Root(p, Root(p, i)) == Root(p, i)
  {
    if p[i] != i { RootOfRoot(p, p[i]); }
  }

  /** Pointing a node at its grandparent changes no root. */
  lemma {:induction false} HalvingKeepsRoot(p: seq<nat>, i: nat, k: nat)
    requires Forest(p) && i < |p| && k < |p|
    ensures Forest(p[i := p[p[i]]])
    ensures Root(p[i := p[p[i]]], k) == Root(p, k)
    decreases k
  {
    var q := p[i := p[p[i]]];
    if k == i {
      if p[i] != i && p[p[i]] != p[i] {
        HalvingKeepsRoot(p, i, p[p[i]]);
      } else if p[i] != i {
        HalvingKeepsRoot(p, i, p[i]);
      }
    } else if p[k] != k {
      HalvingKeepsRoot(p, i, p[k]);
    }
  }

  /** Hanging one root below another redirects exactly the nodes of that root. */
  lemma {:induction false} LinkRedirectsRoot(p: seq<nat>, lo: nat, hi: nat, k: nat)
    requires Forest(p) && lo < hi < |p| && p[lo] == lo && p[hi] == hi && k < |p|
    ensures Forest(p[hi := lo])
    ensures Root(p[hi := lo], k) == if Root(p, k) == hi then lo else Root(p, k)
    decreases k
  {
    if k != hi && p[k] != k {
      LinkRedirectsRoot(p, lo, hi, p[k]);
    }
  }

  method Find(parents: array<nat>, start: nat) returns (index: nat)
    requires Forest(parents[..]) && start < parents.Length
    modifies parents
    ensures SameRoots(old(parents[..]), parents[..])
    ensures index == Root(old(parents[..]), start)
  {
    index := start;
    while parents[index] != index
      invariant index < parents.Length
      invariant SameRoots(old(parents[..]), parents[..])
      invariant Root(parents[..], index) == Root(old(parents[..]), start)
      decreases index
    {
      ghost var before := parents[..];
      forall k | 0 <= k < |before|
        ensures Root(before[index := before[before[index]]], k) == Root(before, k)
      {
        HalvingKeepsRoot(before, index, k);
      }
      HalvingKeepsRoot(before, index, index);
      parents[index] := parents[parents[index]];
      assert parents[..] == before[index := before[before[index]]];
      index := parents[index];
    }
  }

  method Union(parents: array<nat>, left: nat, right: nat)
    requires Forest(parents[..]) && left < parents.Length && right < parents.Length
    modifies parents
    ensures Merged(old(parents[..]), parents[..], left, right)
  {
    var leftRoot := Find(parents, left);
    var rightRoot := Find(parents, right);
    if leftRoot != rightRoot {
      ghost var before := parents[..];
      var lo: nat := if leftRoot < rightRoot then leftRoot else rightRoot;
      var hi: nat := if leftRoot < rightRoot then rightRoot else leftRoot;
      forall k | 0 <= k < |before|
        ensures Forest(before[hi := lo])
        ensures Root(before[hi := lo], k) == if Root(before, k) == hi then lo else Root(before, k)
      {
        LinkRedirectsRoot(before, lo, hi, k);
      }
      LinkRedirectsRoot(before, lo, hi, left);
      parents[hi] := lo;
      assert parents[..] == before[hi := lo];
    }
  }

  /** The classes of `left` and `right` become one, under the smaller root; the others stay. */
  ghost predicate Merged(p: seq<nat>, q: seq<nat>, left: nat, right: nat)
    requires Forest(p) && left < |p| && right < |p|
  {
    && |q| == |p| && Forest(q)
    && var a, b := Root(p, left), Root(p, right);
       var lo := if a < b then a else b;
       forall k :: 0 <= k < |p| ==>
                     Root(q, k) == if Root(p, k) == a || Root(p, k) == b then lo else Root(p, k)
  }

  // ---------------------------------------------------------------------------------------
  // Chains of near pairs
  // ---------------------------------------------------------------------------------------

  /** The pair test of the double loop, which looks at each pair in row order. */
  predicate NearPair(rows: seq<Coordinate>, distance: Distance, i: nat, j: nat) {
    i < j < |rows| && distance(rows[i], rows[j]) <= SUBWAY_STATION_CLUSTER_MAX_M
  }

  predicate Adjacent(rows: seq<Coordinate>, distance: Distance, i: nat, j: nat) {
    NearPair(rows, distance, i, j) || NearPair(rows, distance, j, i)
  }

  predicate Chain(rows: seq<Coordinate>, distance: Distance, path: seq<nat>) {
    && path != []
    && (forall k :: 0 <= k < |path| ==> path[k] < |rows|)
    && (forall k :: 0 <= k < |path| - 1 ==> Adjacent(rows, distance, path[k], path[k + 1]))
  }

  /** Two rows are joined by a chain of near pairs. */
  ghost predicate Linked(rows: seq<Coordinate>, distance: Distance, a: nat, b: nat) {
    exists path: seq<nat> :: Chain(rows, distance, path) && path[0] == a && path[|path| - 1] == b
  }

  lemma LinkedToItself(rows: seq<Coordinate>, distance: Distance, a: nat)
    requires a < |rows|
    ensures Linked(rows, distance, a, a)
  {
    assert Chain(rows, distance, [a]);
  }

  lemma LinkedByPair(rows: seq<Coordinate>, distance: Distance, a: nat, b: nat)
    requires NearPair(rows, distance, a, b)
    ensures Linked(rows, distance, a, b)
  {
    assert Chain(rows, distance, [a, b]);
  }

  function Reversed(path: seq<nat>): (r: seq<nat>)
    ensures |r| == |path| && forall k :: 0 <= k < |r| ==> r[k] == path[|path| - 1 - k]
  {
    seq(|path|, k requires 0 <= k < |path| => path[|path| - 1 - k])
  }

  lemma LinkedSymmetric(rows: seq<Coordinate>, distance: Distance, a: nat, b: nat)
    requires Linked(rows, distance, a, b)
    ensures Linked(rows, distance, b, a)
  {
    hide NearPair;
    var path: seq<nat> :| Chain(rows, distance, path) && path[0] == a && path[|path| - 1] == b;
    var back := Reversed(path);
    forall k | 0 <= k < |back| - 1
      ensures Adjacent(rows, distance, back[k], back[k + 1])
    {
      assert Adjacent(rows, distance, path[|path| - 2 - k], path[|path| - 2 - k + 1]);
    }
    assert Chain(rows, distance, back);
  }

  lemma LinkedTransitive(rows: seq<Coordinate>, distance: Distance, a: nat, b: nat, c: nat)
    requires Linked(rows, distance, a, b) && Linked(rows, distance, b, c)
    ensures Linked(rows, distance, a, c)
  {
    hide Adjacent;
    var p: seq<nat> :| Chain(rows, distance, p) && p[0] == a && p[|p| - 1] == b;
    var q: seq<nat> :| Chain(rows, distance, q) && q[0] == b && q[|q| - 1] == c;
    var path := p + q[1..];
    forall k | 0 <= k < |path| - 1
      ensures Adjacent(rows, distance, path[k], path[k + 1])
    {
      if k < |p| - 1 {
      } else {
        var m := k - (|p| - 1);
        assert Adjacent(rows, distance, q[m], q[m + 1]);
        assert path[k] == q[m];
      }
    }
    assert Chain(rows, distance, path);
  }

  // ---------------------------------------------------------------------------------------
  // The clustering loop
  // ---------------------------------------------------------------------------------------

  /** The pairs the double loop has looked at when it stands at `(left, right)`. */
  predicate Visited(i: nat, j: nat, left: nat, right: nat) {
    i < left || (i == left && j < right)
  }

  /** Roots are linked to their rows, and every visited near pair has been joined. */
  ghost predicate Progress(rows: seq<Coordinate>, distance: Distance, parents: seq<nat>, left: nat, right: nat) {
    && |parents| == |rows| && Forest(parents)
    && (forall k :: 0 <= k < |rows| ==> Linked(rows, distance, k, Root(parents, k)))
    && (forall i: nat, j: nat :: NearPair(rows, distance, i, j) && Visited(i, j, left, right) ==>
                                   Root(parents, i) == Root(parents, j))
  }

  lemma MergeProgresses(
      rows: seq<Coordinate>, distance: Distance, p: seq<nat>, q: seq<nat>, left: nat, right: nat)
    requires Progress(rows, distance, p, left, right) && left < right < |rows|
    requires NearPair(rows, distance, left, right)
    requires Merged(p, q, left, right)
    ensures Progress(rows, distance, q, left, right + 1)
  {
    hide Linked;
    var a, b := Root(p, left), Root(p, right);
    LinkedByPair(rows, distance, left, right);
    LinkedSymmetric(rows, distance, left, a);
    LinkedTransitive(rows, distance, a, left, right);
    LinkedTransitive(rows, distance, a, right, b);
    LinkedSymmetric(rows, distance, a, b);
    forall k | 0 <= k < |rows|
      ensures Linked(rows, distance, k, Root(q, k))
    {
      if Root(p, k) == a && Root(q, k) != a { LinkedTransitive(rows, distance, k, a, b); }
      if Root(p, k) == b && Root(q, k) != b { LinkedTransitive(rows, distance, k, b, a); }
    }
    forall i: nat, j: nat | NearPair(rows, distance, i, j) && Visited(i, j, left, right + 1)
      ensures Root(q, i) == Root(q, j)
    {
      assert Visited(i, j, left, right) || (i == left && j == right);
    }
  }

  /** When all pairs are visited, two rows share a root exactly when a chain joins them. */
  lemma RootsAreComponents(rows: seq<Coordinate>, distance: Distance, parents: seq<nat>, a: nat, b: nat)
    requires Progress(rows, distance, parents, |rows|, 0) && a < |rows| && b < |rows|
    ensures Root(parents, a) == Root(parents, b) <==> Linked(rows, distance, a, b)
  {
    if Root(parents, a) == Root(parents, b) {
      LinkedSymmetric(rows, distance, b, Root(parents, b));
      LinkedTransitive(rows, distance, a, Root(parents, a), b);
    }
    if Linked(rows, distance, a, b) {
      var path: seq<nat> :| Chain(rows, distance, path) && path[0] == a && path[|path| - 1] == b;
      ChainSharesRoot(rows, distance, parents, path);
    }
  }

  lemma {:induction false} ChainSharesRoot(
      rows: seq<Coordinate>, distance: Distance, parents: seq<nat>, path: seq<nat>)
    requires Progress(rows, distance, parents, |rows|, 0) && Chain(rows, distance, path)
    ensures Root(parents, path[0]) == Root(parents, path[|path| - 1])
  {
    if |path| > 1 {
      assert Adjacent(rows, distance, path[0], path[1]);
      var rest := path[1..];
      assert Chain(rows, distance, rest) by {
        hide Adjacent;
        forall k | 0 <= k < |rest| - 1
          ensures Adjacent(rows, distance, rest[k], rest[k + 1])
        {
          assert Adjacent(rows, distance, path[k + 1], path[k + 1 + 1]);
        }
      }
      ChainSharesRoot(rows, distance, parents, rest);
    }
  }

  /** The union-find part: afterwards the roots are the components of the near graph. */
  method JoinNearRows(rows: seq<Coordinate>, distance: Distance) returns (parents: array<nat>)
    ensures fresh(parents) && Progress(rows, distance, parents[..], |rows|, 0)
  {
    hide Linked;
    parents := new nat[|rows|](i => i);
    forall k | 0 <= k < |rows|
      ensures Linked(rows, distance, k, k)
    {
      LinkedToItself(rows, distance, k);
    }
    var left := 0;
    while left < |rows|
      invariant 0 <= left <= |rows| && parents.Length == |rows| && fresh(parents)
      invariant Progress(rows, distance, parents[..], left, 0)
    {
      var right := left + 1;
      assert Progress(rows, distance, parents[..], left, right);
      while right < |rows|
        invariant left < right <= |rows| && fresh(parents)
        invariant Progress(rows, distance, parents[..], left, right)
      {
        if distance(rows[left], rows[right]) <= SUBWAY_STATION_CLUSTER_MAX_M {
          ghost var before := parents[..];
          Union(parents, left, right);
          MergeProgresses(rows, distance, before, parents[..], left, right);
        }
        right := right + 1;
      }
      left := left + 1;
    }
  }

  // ---------------------------------------------------------------------------------------
  // Grouping
  // ---------------------------------------------------------------------------------------

  ghost predicate Ascending(s: seq<nat>) {
    forall i, j :: 0 <= i < j < |s| ==> s[i] < s[j]
  }

  type Groups = map<nat, seq<nat>>

  predicate InGroup(components: Groups, r: nat, i: nat) {
    r in components && i in components[r]
  }

  /** The first `n` rows, grouped by root in row order. */
  ghost predicate GroupedByRoot(components: Groups, parents: seq<nat>, n: nat)
    requires Forest(parents) && n <= |parents|
  {
    && (forall r :: r in components ==> components[r] != [] && Ascending(components[r]))
    && (forall r: nat, i: nat :: InGroup(components, r, i) <==> i < n && Root(parents, i) == r)
  }

  lemma AppendKeepsAscending(group: seq<nat>, n: nat)
    requires Ascending(group) && forall i :: i in group ==> i < n
    ensures Ascending(group + [n])
    ensures forall i :: i in group + [n] <==> i in group || i == n
  {
    assert forall k :: 0 <= k < |group| ==> group[k] in group;
  }

  lemma AppendToGroup(components: Groups, parents: seq<nat>, n: nat, group: seq<nat>)
    requires Forest(parents) && n < |parents| && GroupedByRoot(components, parents, n)
    requires var r := Root(parents, n);
             group == (if r in components then components[r] else []) + [n]
    ensures GroupedByRoot(components[Root(parents, n) := group], parents, n + 1)
  {
    hide Root, Forest, Ascending;
    var r := Root(parents, n);
    var before := if r in components then components[r] else [];
    assert Ascending([]) by { EmptyAscends(); }
    forall i | i in before
      ensures i < n
    {
      assert InGroup(components, r, i);
    }
    AppendKeepsAscending(before, n);
    var after := components[r := group];
    forall s: nat, i: nat
      ensures InGroup(after, s, i) <==> i < n + 1 && Root(parents, i) == s
    {
      assert InGroup(components, s, i) <==> i < n && Root(parents, i) == s;
    }
  }

  lemma EmptyAscends()
    ensures Ascending([])
  {
  }

  /**
   The components of one station name: keyed by least row, each listed in row order; two rows
   are listed together exactly when a chain of near pairs joins them; every row is listed.
   */
  ghost predicate Components(rows: seq<Coordinate>, distance: Distance, components: Groups) {
    && (forall r :: r in components ==>
                      components[r] != [] && Ascending(components[r]) && components[r][0] == r)
    && (forall r: nat, i: nat :: InGroup(components, r, i) ==> i < |rows|)
    && (forall i: nat :: i < |rows| ==> Listed(components, i))
    && (forall r: nat, s: nat, i: nat, j: nat :: InGroup(components, r, i) && InGroup(components, s, j) ==>
                               (r == s <==> Linked(rows, distance, i, j)))
  }

  ghost predicate Listed(components: Groups, i: nat) {
    exists r: nat :: InGroup(components, r, i)
  }

  lemma GroupsAreComponents(rows: seq<Coordinate>, distance: Distance, parents: seq<nat>, components: Groups)
    requires Progress(rows, distance, parents, |rows|, 0)
    requires Forest(parents) && |parents| == |rows| && GroupedByRoot(components, parents, |rows|)
    ensures Components(rows, distance, components)
  {
    hide Linked, NearPair, Progress;
    forall r | r in components
      ensures components[r][0] == r
    {
      var group := components[r];
      assert group[0] in group && InGroup(components, r, group[0]);
      RootOfRoot(parents, group[0]);
      assert InGroup(components, r, r);
      var k :| 0 <= k < |group| && group[k] == r;
    }
    forall r: nat, s: nat, i: nat, j: nat | InGroup(components, r, i) && InGroup(components, s, j)
      ensures r == s <==> Linked(rows, distance, i, j)
    {
      RootsAreComponents(rows, distance, parents, i, j);
    }
    forall i: nat | i < |rows|
      ensures Listed(components, i)
    {
      assert InGroup(components, Root(parents, i), i);
    }
  }

  method BuildComponents(rows: seq<Coordinate>, distance: Distance) returns (components: Groups)
    ensures Components(rows, distance, components)
  {
    var parents := JoinNearRows(rows, distance);
    ghost var joined := parents[..];
    hide Linked, NearPair, Progress, Components, InGroup;
    JoinedForest(rows, distance, joined);
    components := map[];
    NoGroups(joined);
    var index := 0;
    while index < |rows|
      invariant 0 <= index <= |rows| && parents.Length == |rows| && fresh(parents)
      invariant SameRoots(joined, parents[..])
      invariant GroupedByRoot(components, joined, index)
    {
      var root := Find(parents, index);
      var group := (if root in components then components[root] else []) + [index];
      AppendToGroup(components, joined, index, group);
      components := components[root := group];
      index := index + 1;
    }
    GroupsAreComponents(rows, distance, joined, components);
  }

  lemma NoGroups(parents: seq<nat>)
    requires Forest(parents)
    ensures GroupedByRoot(map[], parents, 0)
  {
  }

  lemma JoinedForest(rows: seq<Coordinate>, distance: Distance, parents: seq<nat>)
    requires Progress(rows, distance, parents, |rows|, 0)
    ensures |parents| == |rows| && Forest(parents)
  {
  }

  /** Rows of different components are farther apart than the limit. */
  lemma ComponentsAreApart(
      rows: seq<Coordinate>, distance: Distance, components: Groups, r: nat, s: nat, i: nat, j: nat)
    requires Components(rows, distance, components)
    requires InGroup(components, r, i) && InGroup(components, s, j) && r != s
    requires forall a: Coordinate, b: Coordinate :: distance(a, b) == distance(b, a)
    ensures distance(rows[i], rows[j]) > SUBWAY_STATION_CLUSTER_MAX_M
  {
    hide Linked;
    if NearPair(rows, distance, i, j) {
      LinkedByPair(rows, distance, i, j);
    } else if NearPair(rows, distance, j, i) {
      LinkedByPair(rows, distance, j, i);
    } else if i == j {
      LinkedToItself(rows, distance, i);
    }
  }

  /** The near graph determines the components: two such groupings list the same rows. */
  lemma ComponentsAreUnique(rows: seq<Coordinate>, distance: Distance, a: Groups, b: Groups, r: nat, i: nat)
    requires Components(rows, distance, a) && Components(rows, distance, b)
    ensures InGroup(a, r, i) <==> InGroup(b, r, i)
  {
    if InGroup(a, r, i) { ComponentCarriesOver(rows, distance, a, b, r, i); }
    if InGroup(b, r, i) { ComponentCarriesOver(rows, distance, b, a, r, i); }
  }

  lemma ComponentCarriesOver(rows: seq<Coordinate>, distance: Distance, a: Groups, b: Groups, r: nat, i: nat)
    requires Components(rows, distance, a) && Components(rows, distance, b) && InGroup(a, r, i)
    ensures InGroup(b, r, i)
  {
    hide Linked, Ascending;
    assert a[r][0] in a[r] && InGroup(a, r, r);
    assert Listed(b, r) && Listed(b, i);
    var s: nat :| InGroup(b, s, r);
    var t: nat :| InGroup(b, t, i);
    assert Linked(rows, distance, r, i) && s == t;
    assert b[s][0] in b[s] && InGroup(b, s, s);
    assert Linked(rows, distance, s, r);
    assert Listed(a, s);
    var u: nat :| InGroup(a, u, s);
    assert u == r;
    FirstIsLeast(a[r], s);
    FirstIsLeast(b[s], r);
  }

  lemma FirstIsLeast(group: seq<nat>, i: nat)
    requires Ascending(group) && i in group
    ensures group[0] <= i
  {
  }
}
