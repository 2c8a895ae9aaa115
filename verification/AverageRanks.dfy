/**
 Average ranks (`_average_ranks` in backend/scripts/run_eval.py): tied values share the
 mean of the positions they occupy in sorted order.
 */
module AverageRanks {

  // ---------------------------------------------------------------------------------------
  // The rank a value deserves
  // ---------------------------------------------------------------------------------------

  /** What one other value adds to the rank of `value`. */
  function Score(value: real, other: real): real {
    if other < value then 1.0 else if other == value then 0.5 else 0.0
  }

  function TotalScore(value: real, others: seq<real>): real {
    if others == [] then 0.0 else Score(value, others[0]) + TotalScore(value, others[1..])
  }

  /** One half for itself as its own tie, plus the scores against everyone. */
  function Rank(values: seq<real>, i: nat): real
    requires i < |values|
  {
    0.5 + TotalScore(values[i], values)
  }

  function Ranks(values: seq<real>): (ranks: seq<real>)
    ensures |ranks| == |values|
    ensures forall i :: 0 <= i < |values| ==> ranks[i] == Rank(values, i)
  {
    seq(|values|, i requires 0 <= i < |values| => Rank(values, i))
  }

  function Sum(values: seq<real>): real {
    if values == [] then 0.0 else values[0] + Sum(values[1..])
  }

  // ---------------------------------------------------------------------------------------
  // The sorted order
  // ---------------------------------------------------------------------------------------

  /** The indices in `order` are sorted by value. */
  ghost predicate Sorted(values: seq<real>, order: seq<nat>) {
    && (forall i :: 0 <= i < |order| ==> order[i] < |values|)
    && (forall i, j :: 0 <= i < j < |order| ==> values[order[i]] <= values[order[j]])
  }

  /** Insert behind every index whose value is not larger: a stable insertion. */
  function InsertIndex(values: seq<real>, order: seq<nat>, index: nat): (r: seq<nat>)
    requires index < |values| && forall i :: 0 <= i < |order| ==> order[i] < |values|
    ensures |r| == |order| + 1
    ensures forall i :: 0 <= i < |r| ==> r[i] < |values|
  {
    if order == [] then [index]
    else if values[order[0]] <= values[index] then [order[0]] + InsertIndex(values, order[1..], index)
    else [index] + order
  }

  /** The indices of the first `n` values, sorted by value and then by index. */
  function SortPrefix(values: seq<real>, n: nat): (order: seq<nat>)
    requires n <= |values|
    ensures |order| == n
    ensures forall i :: 0 <= i < |order| ==> order[i] < |values|
  {
    if n == 0 then [] else InsertIndex(values, SortPrefix(values, n - 1), n - 1)
  }

  /** The values in the given order. */
  function Pick(values: seq<real>, order: seq<nat>): (r: seq<real>)
    requires forall i :: 0 <= i < |order| ==> order[i] < |values|
    ensures |r| == |order|
    ensures forall i :: 0 <= i < |order| ==> r[i] == values[order[i]]
  {
    seq(|order|, i requires 0 <= i < |order| => values[order[i]])
  }

  lemma {:induction false} InsertIndexSorts(values: seq<real>, order: seq<nat>, index: nat)
    requires index < |values| && Sorted(values, order)
    ensures var r := InsertIndex(values, order, index);
            Sorted(values, r) && forall x :: x in r <==> x in order || x == index
  {
    if order == [] {
    } else if values[order[0]] <= values[index] {
      var inner := InsertIndex(values, order[1..], index);
      assert order == [order[0]] + order[1..];
      InsertIndexSorts(values, order[1..], index);
      hide InsertIndex;
      forall j | 0 <= j < |inner|
        ensures values[order[0]] <= values[inner[j]]
      {
        assert inner[j] in inner;
      }
    }
  }

  lemma {:induction false} InsertIndexScore(values: seq<real>, order: seq<nat>, index: nat, v: real)
    requires index < |values| && forall i :: 0 <= i < |order| ==> order[i] < |values|
    ensures TotalScore(v, Pick(values, InsertIndex(values, order, index))) ==
            TotalScore(v, Pick(values, order)) + Score(v, values[index])
  {
    var r := InsertIndex(values, order, index);
    if order == [] {
      assert Pick(values, r)[1..] == [];
    } else {
      assert Pick(values, order)[1..] == Pick(values, order[1..]);
      if values[order[0]] <= values[index] {
        InsertIndexScore(values, order[1..], index, v);
        assert Pick(values, r)[1..] == Pick(values, InsertIndex(values, order[1..], index));
      } else {
        assert Pick(values, r)[1..] == Pick(values, order);
      }
    }
  }

  /** Sorting lists every index, and scores do not depend on the order. */
  lemma {:induction false} SortPrefixSorts(values: seq<real>, n: nat, v: real)
    requires n <= |values|
    ensures var order := SortPrefix(values, n);
            && Sorted(values, order)
            && (forall i: nat :: i < n ==> i in order)
            && TotalScore(v, Pick(values, order)) == TotalScore(v, values[..n])
  {
    hide InsertIndex, TotalScore, Score;
    if n == 0 {
      assert Pick(values, []) == values[..0];
    } else {
      SortPrefixSorts(values, n - 1, v);
      InsertIndexSorts(values, SortPrefix(values, n - 1), n - 1);
      InsertIndexScore(values, SortPrefix(values, n - 1), n - 1, v);
      TotalScoreAppend(v, values[..n - 1], values[n - 1]);
      assert values[..n] == values[..n - 1] + [values[n - 1]];
    }
  }

  lemma OrderOfAll(values: seq<real>)
    ensures Sorted(values, SortPrefix(values, |values|))
    ensures forall i: nat :: i < |values| ==> i in SortPrefix(values, |values|)
  {
    SortPrefixSorts(values, |values|, 0.0);
  }

  lemma ScoreInOrder(values: seq<real>, v: real)
    ensures TotalScore(v, Pick(values, SortPrefix(values, |values|))) == TotalScore(v, values)
  {
    SortPrefixSorts(values, |values|, v);
    assert values[..|values|] == values;
  }

  lemma {:induction false} TotalScoreAppend(v: real, a: seq<real>, x: real)
    ensures TotalScore(v, a + [x]) == TotalScore(v, a) + Score(v, x)
  {
    if a == [] {
    } else {
      assert (a + [x])[1..] == a[1..] + [x];
      TotalScoreAppend(v, a[1..], x);
    }
  }

  function Below(values: seq<real>, v: real): set<nat> {
    set j: nat | j < |values| && values[j] < v
  }

  function Ties(values: seq<real>, v: real): set<nat> {
    set j: nat | j < |values| && values[j] == v
  }

  lemma OneMoreBelow(before: seq<real>, last: real, v: real)
    ensures |Below(before + [last], v)| == |Below(before, v)| + (if last < v then 1 else 0)
  {
    var values, n := before + [last], |before|;
    forall j: nat
      ensures j in Below(values, v) <==> j in Below(before, v) || (j == n && last < v)
    {
      assert j < n ==> values[j] == before[j];
    }
    hide Below;
    if last < v {
      assert Below(values, v) == Below(before, v) + {n};
    } else {
      assert Below(values, v) == Below(before, v);
    }
  }

  lemma OneMoreTie(before: seq<real>, last: real, v: real)
    ensures |Ties(before + [last], v)| == |Ties(before, v)| + (if last == v then 1 else 0)
  {
    var values, n := before + [last], |before|;
    forall j: nat
      ensures j in Ties(values, v) <==> j in Ties(before, v) || (j == n && last == v)
    {
      assert j < n ==> values[j] == before[j];
    }
    hide Ties;
    if last == v {
      assert Ties(values, v) == Ties(before, v) + {n};
    } else {
      assert Ties(values, v) == Ties(before, v);
    }
  }

  lemma {:induction false} ScoreCounts(values: seq<real>, v: real)
    ensures TotalScore(v, values) == |Below(values, v)| as real + |Ties(values, v)| as real / 2.0
  {
    hide TotalScore, Below, Ties;
    if values == [] {
      NoScore(v);
    } else {
      var before, last := values[..|values| - 1], values[|values| - 1];
      assert values == before + [last];
      ScoreCounts(before, v);
      TotalScoreAppend(v, before, last);
      OneMoreBelow(before, last, v);
      OneMoreTie(before, last, v);
    }
  }

  lemma NoScore(v: real)
    ensures TotalScore(v, []) == 0.0 && Below([], v) == {} && Ties([], v) == {}
  {
  }

  /** The rank of a value: how many are less, and half of one more than how many equal it. */
  lemma RankCountsLessAndEqual(values: seq<real>, i: nat)
    requires i < |values|
    ensures Rank(values, i) == |Below(values, values[i])| as real + (|Ties(values, values[i])| + 1) as real / 2.0
  {
    hide TotalScore;
    ScoreCounts(values, values[i]);
  }

  /** Against a sorted list, the score of a value is given by the block of its ties. */
  lemma {:induction false} BlockScore(v: real, sorted: seq<real>, start: nat, end: nat)
    requires start <= end <= |sorted|
    requires forall i :: 0 <= i < start ==> sorted[i] < v
    requires forall i :: start <= i < end ==> sorted[i] == v
    requires forall i :: end <= i < |sorted| ==> sorted[i] > v
    ensures TotalScore(v, sorted) == start as real + (end - start) as real / 2.0
  {
    if sorted != [] {
      BlockScore(v, sorted[1..], if start > 0 then start - 1 else 0, if end > 0 then end - 1 else 0);
    }
  }

  /** The inner loop: give every index of the block the same rank. */
  method AssignRank(ranks: seq<real>, block: seq<nat>, rank: real) returns (r: seq<real>)
    requires forall k :: 0 <= k < |block| ==> block[k] < |ranks|
    ensures |r| == |ranks|
    ensures forall i: nat :: i < |ranks| ==> r[i] == if i in block then rank else ranks[i]
  {
    r := ranks;
    var k := 0;
    while k < |block|
      invariant 0 <= k <= |block| && |r| == |ranks|
      invariant forall i: nat :: i < |ranks| ==> r[i] == if i in block[..k] then rank else ranks[i]
    {
      r := r[block[k] := rank];
      assert block[..k + 1] == block[..k] + [block[k]];
      k := k + 1;
    }
    assert block[..k] == block;
  }

  /** The listed indices have their rank. */
  ghost predicate RankedOn(values: seq<real>, ranks: seq<real>, indices: seq<nat>) {
    |ranks| == |values| && forall i :: i in indices ==> i < |values| && ranks[i] == Rank(values, i)
  }

  /** The tie loop. */
  method ComputeAverageRanks(values: seq<real>) returns (ranks: seq<real>)
    ensures ranks == Ranks(values)
  {
    var ordered := SortPrefix(values, |values|);
    ranks := seq(|values|, _ => 0.0);
    var start := 0;
    assert RankedOn(values, ranks, ordered[..0]);
    hide SortPrefix, RankedOn, Ranks;
    while start < |ordered|
      invariant 0 <= start <= |ordered|
      invariant RankedOn(values, ranks, ordered[..start])
      invariant |ranks| == |values|
      invariant 0 < start < |ordered| ==> values[ordered[start - 1]] < values[ordered[start]]
    {
      var end := start + 1;
      while end < |ordered| && values[ordered[end]] == values[ordered[start]]
        invariant start < end <= |ordered|
        invariant forall k :: start <= k < end ==> values[ordered[k]] == values[ordered[start]]
      {
        end := end + 1;
      }
      var averageRank := ((start + 1) + end) as real / 2.0;
      NextBlock(values, ordered, start, end);
      ghost var before := ranks;
      ranks := AssignRank(ranks, ordered[start..end], averageRank);
      BlockIsRanked(values, ordered, start, end, before, ranks);
      start := end;
    }
    assert ordered[..start] == ordered;
    AllRanked(values, ranks);
  }

  lemma AllRanked(values: seq<real>, ranks: seq<real>)
    requires RankedOn(values, ranks, SortPrefix(values, |values|))
    ensures ranks == Ranks(values)
  {
    hide SortPrefix, Rank, Sorted;
    OrderOfAll(values);
    forall i: nat | i < |values|
      ensures ranks[i] == Rank(values, i)
    {
      assert i in SortPrefix(values, |values|);
    }
  }

  lemma BlockIsRanked(
      values: seq<real>, ordered: seq<nat>, start: nat, end: nat, before: seq<real>, ranks: seq<real>)
    requires ordered == SortPrefix(values, |values|) && start < end <= |ordered|
    requires start > 0 ==> values[ordered[start - 1]] < values[ordered[start]]
    requires forall k :: start <= k < end ==> values[ordered[k]] == values[ordered[start]]
    requires end < |ordered| ==> values[ordered[end]] != values[ordered[start]]
    requires RankedOn(values, before, ordered[..start]) && |ranks| == |before|
    requires forall i: nat :: i < |ranks| ==>
               ranks[i] == if i in ordered[start..end] then ((start + 1) + end) as real / 2.0 else before[i]
    ensures RankedOn(values, ranks, ordered[..end])
  {
    TieBlockRank(values, ordered, start, end);
    assert ordered[..end] == ordered[..start] + ordered[start..end];
  }

  lemma NextBlock(values: seq<real>, ordered: seq<nat>, start: nat, end: nat)
    requires ordered == SortPrefix(values, |values|) && start < end <= |ordered|
    requires forall k :: start <= k < end ==> values[ordered[k]] == values[ordered[start]]
    requires end < |ordered| ==> values[ordered[end]] != values[ordered[start]]
    ensures end < |ordered| ==> values[ordered[end - 1]] < values[ordered[end]]
  {
    hide SortPrefix;
    OrderOfAll(values);
  }

  lemma TieBlock(values: seq<real>, ordered: seq<nat>, start: nat, end: nat)
    requires Sorted(values, ordered) && start < end <= |ordered|
    requires start > 0 ==> values[ordered[start - 1]] < values[ordered[start]]
    requires end < |ordered| ==> values[ordered[end - 1]] < values[ordered[end]]
    requires values[ordered[end - 1]] == values[ordered[start]]
    ensures forall i :: 0 <= i < start ==> values[ordered[i]] < values[ordered[start]]
    ensures forall i :: end <= i < |ordered| ==> values[ordered[start]] < values[ordered[i]]
  {
    forall i | 0 <= i < start
      ensures values[ordered[i]] < values[ordered[start]]
    {
      assert i < start - 1 ==> values[ordered[i]] <= values[ordered[start - 1]];
    }
    forall i | end <= i < |ordered|
      ensures values[ordered[start]] < values[ordered[i]]
    {
      assert end < i ==> values[ordered[end]] <= values[ordered[i]];
    }
  }

  /** The average position of a maximal block of ties is the rank of each of its members. */
  lemma TieBlockRank(values: seq<real>, ordered: seq<nat>, start: nat, end: nat)
    requires ordered == SortPrefix(values, |values|) && start < end <= |ordered|
    requires start > 0 ==> values[ordered[start - 1]] < values[ordered[start]]
    requires forall k :: start <= k < end ==> values[ordered[k]] == values[ordered[start]]
    requires end < |ordered| ==> values[ordered[end]] != values[ordered[start]]
    ensures forall i :: i in ordered[start..end] ==> Rank(values, i) == ((start + 1) + end) as real / 2.0
  {
    hide SortPrefix, TotalScore, Sorted;
    OrderOfAll(values);
    NextBlock(values, ordered, start, end);
    TieBlock(values, ordered, start, end);
    ScoreInOrder(values, values[ordered[start]]);
    BlockScore(values[ordered[start]], Pick(values, ordered), start, end);
  }

  // ---------------------------------------------------------------------------------------
  // What the ranks are good for
  // ---------------------------------------------------------------------------------------

  ghost function CrossScore(a: seq<real>, b: seq<real>): real {
    if a == [] then 0.0 else TotalScore(a[0], b) + CrossScore(a[1..], b)
  }

  /** Two values score exactly one against each other. */
  lemma {:induction false} CrossScoreColumn(b: seq<real>, x: real, rest: seq<real>)
    ensures CrossScore(b, [x] + rest) + TotalScore(x, b) == CrossScore(b, rest) + |b| as real
  {
    if b == [] {
    } else {
      assert ([x] + rest)[1..] == rest;
      CrossScoreColumn(b[1..], x, rest);
    }
  }

  lemma {:induction false} CrossScoresAddUp(a: seq<real>, b: seq<real>)
    ensures CrossScore(a, b) + CrossScore(b, a) == |a| as real * |b| as real
  {
    if a == [] {
      NoScores(b);
    } else {
      CrossScoresAddUp(a[1..], b);
      CrossScoreColumn(b, a[0], a[1..]);
      assert a == [a[0]] + a[1..];
      assert |a| as real * |b| as real == |a[1..]| as real * |b| as real + |b| as real;
    }
  }

  lemma {:induction false} NoScores(b: seq<real>)
    ensures CrossScore(b, []) == 0.0
  {
    if b != [] { NoScores(b[1..]); }
  }

  lemma {:induction false} SumOfRankSuffix(values: seq<real>, k: nat)
    requires k <= |values|
    ensures Sum(Ranks(values)[k..]) == (|values| - k) as real / 2.0 + CrossScore(values[k..], values)
    decreases |values| - k
  {
    if k < |values| {
      SumOfRankSuffix(values, k + 1);
      assert Ranks(values)[k..][1..] == Ranks(values)[k + 1..];
      assert values[k..][1..] == values[k + 1..];
    }
  }

  /** Ties or not, the ranks of `n` values sum to n(n+1)/2. */
  lemma RanksSum(values: seq<real>)
    ensures Sum(Ranks(values)) == |values| as real * (|values| + 1) as real / 2.0
  {
    SumOfRankSuffix(values, 0);
    CrossScoresAddUp(values, values);
    assert Ranks(values)[0..] == Ranks(values) && values[0..] == values;
    var n := |values| as real;
    assert n * (n + 1.0) == n * n + n;
  }

  ghost predicate SameOrder(a: seq<real>, b: seq<real>)
    requires |a| == |b|
  {
    forall i, j :: 0 <= i < |a| && 0 <= j < |a| ==> (a[i] < a[j] <==> b[i] < b[j])
  }

  ghost predicate OppositeOrder(a: seq<real>, b: seq<real>)
    requires |a| == |b|
  {
    forall i, j :: 0 <= i < |a| && 0 <= j < |a| ==> (a[i] < a[j] <==> b[j] < b[i])
  }

  lemma {:induction false} SameScores(x: real, a: seq<real>, y: real, b: seq<real>)
    requires |a| == |b|
    requires forall i :: 0 <= i < |a| ==> (a[i] < x <==> b[i] < y) && (x < a[i] <==> y < b[i])
    ensures TotalScore(x, a) == TotalScore(y, b)
  {
    if a != [] { SameScores(x, a[1..], y, b[1..]); }
  }

  lemma {:induction false} OppositeScores(x: real, a: seq<real>, y: real, b: seq<real>)
    requires |a| == |b|
    requires forall i :: 0 <= i < |a| ==> (a[i] < x <==> y < b[i]) && (x < a[i] <==> b[i] < y)
    ensures TotalScore(x, a) + TotalScore(y, b) == |a| as real
  {
    if a != [] { OppositeScores(x, a[1..], y, b[1..]); }
  }

  lemma {:induction false} ScoreGrows(x: real, y: real, others: seq<real>)
    requires x <= y
    ensures TotalScore(x, others) <= TotalScore(y, others)
    ensures x < y && x in others ==> TotalScore(x, others) < TotalScore(y, others)
  {
    if others != [] {
      assert others == [others[0]] + others[1..];
      ScoreGrows(x, y, others[1..]);
    }
  }

  /** Ranks order the values exactly as the values are ordered. */
  lemma RanksOrderValues(values: seq<real>)
    ensures SameOrder(values, Ranks(values))
  {
    forall i, j | 0 <= i < |values| && 0 <= j < |values|
      ensures values[i] < values[j] <==> Rank(values, i) < Rank(values, j)
    {
      assert values[i] in values && values[j] in values;
      if values[i] <= values[j] { ScoreGrows(values[i], values[j], values); }
      if values[j] <= values[i] { ScoreGrows(values[j], values[i], values); }
    }
  }

  /** Ranks depend on the order of the values and on nothing else. */
  lemma RanksAreOrder(a: seq<real>, b: seq<real>)
    requires |a| == |b|
    ensures Ranks(a) == Ranks(b) <==> SameOrder(a, b)
  {
    RanksOrderValues(a);
    RanksOrderValues(b);
    if SameOrder(a, b) {
      forall i | 0 <= i < |a|
        ensures Rank(a, i) == Rank(b, i)
      {
        SameScores(a[i], a, b[i], b);
      }
    }
  }

  /** A strictly increasing transform of the values leaves the ranks unchanged. */
  lemma RanksKeptByIncreasingTransform(values: seq<real>, f: real -> real)
    requires forall x: real, y: real :: x < y ==> f(x) < f(y)
    ensures Ranks(seq(|values|, i requires 0 <= i < |values| => f(values[i]))) == Ranks(values)
  {
    RanksAreOrder(seq(|values|, i requires 0 <= i < |values| => f(values[i])), values);
  }

  /** Reversing the order of the values reverses the ranks: r becomes n + 1 - r. */
  lemma OppositeRanks(a: seq<real>, b: seq<real>)
    requires |a| == |b| && OppositeOrder(a, b)
    ensures forall i :: 0 <= i < |a| ==> Rank(a, i) + Rank(b, i) == |a| as real + 1.0
  {
    forall i | 0 <= i < |a|
      ensures Rank(a, i) + Rank(b, i) == |a| as real + 1.0
    {
      OppositeScores(a[i], a, b[i], b);
    }
  }
}
