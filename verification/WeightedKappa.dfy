/**
 Quadratic weighted Cohen's kappa for the ordinal levels 1 to 4
 (`quadratic_weighted_cohen_kappa` in backend/scripts/run_eval.py).
 */
module WeightedKappa {
  import opened Outcomes
  import opened RealAlgebra

  predicate ValidLevel(level: int) {
    1 <= level <= 4
  }

  predicate ValidLevels(levels: seq<int>) {
    forall i :: 0 <= i < |levels| ==> ValidLevel(levels[i])
  }

  function Distinct(levels: seq<int>): set<int> {
    set level | level in levels
  }

  /** `list.count`. */
  function Count(levels: seq<int>, level: int): nat {
    if levels == [] then 0 else (if levels[0] == level then 1 else 0) + Count(levels[1..], level)
  }

  function SquaredGap(left: int, right: int): int {
    (left - right) * (left - right)
  }

  function Weight(left: int, right: int): real {
    SquaredGap(left, right) as real / 9.0
  }

  function PairDisagreement(primary: seq<int>, reliability: seq<int>): real
    requires |primary| == |reliability|
  {
    if primary == [] then 0.0
    else Weight(primary[0], reliability[0]) + PairDisagreement(primary[1..], reliability[1..])
  }

  function ObservedDisagreement(primary: seq<int>, reliability: seq<int>): real
    requires |primary| == |reliability| > 0
  {
    PairDisagreement(primary, reliability) / |primary| as real
  }

  function Share(levels: seq<int>, level: int, count: nat): real
    requires count > 0
  {
    Count(levels, level) as real / count as real
  }

  /** What one pair of levels adds to the disagreement expected by chance. */
  function Term(x: seq<int>, y: seq<int>, left: int, right: int, count: nat): real
    requires count > 0
  {
    Weight(left, right) * Share(x, left, count) * Share(y, right, count)
  }

  function TermRow(x: seq<int>, y: seq<int>, left: int, count: nat): real
    requires count > 0
  {
    Term(x, y, left, 1, count) + Term(x, y, left, 2, count) + Term(x, y, left, 3, count) + Term(x, y, left, 4, count)
  }

  function ExpectedDisagreement(x: seq<int>, y: seq<int>): real
    requires |x| == |y| > 0
  {
    TermRow(x, y, 1, |x|) + TermRow(x, y, 2, |x|) + TermRow(x, y, 3, |x|) + TermRow(x, y, 4, |x|)
  }

  function QuadraticWeightedKappa(primary: seq<int>, reliability: seq<int>): Result<Option<real>> {
    if |primary| != |reliability| then Error("primary and reliability lengths differ")
    else if !ValidLevels(primary) || !ValidLevels(reliability) then
      Error("reliability levels must be between 1 and 4")
    else if |primary| < 2 || |Distinct(primary)| < 2 || |Distinct(reliability)| < 2 then Ok(None)
    else
      var expected := ExpectedDisagreement(primary, reliability);
      Ok(if expected == 0.0 then None else Some(1.0 - ObservedDisagreement(primary, reliability) / expected))
  }

  // ---------------------------------------------------------------------------------------
  // Moments
  // ---------------------------------------------------------------------------------------

  function Total(x: seq<int>): int {
    if x == [] then 0 else x[0] + Total(x[1..])
  }

  function Products(x: seq<int>, y: seq<int>): int
    requires |x| == |y|
  {
    if x == [] then 0 else x[0] * y[0] + Products(x[1..], y[1..])
  }

  function SquaredDifferences(x: seq<int>, y: seq<int>): int
    requires |x| == |y|
  {
    if x == [] then 0 else (x[0] - y[0]) * (x[0] - y[0]) + SquaredDifferences(x[1..], y[1..])
  }

  /** `n` squared times the covariance. */
  function CovarianceTotal(x: seq<int>, y: seq<int>): int
    requires |x| == |y|
  {
    |x| * Products(x, y) - Total(x) * Total(y)
  }

  /** The differences `(x[i] - y[j])` squared, over all pairs of raters' answers. */
  function AllPairs(x: seq<int>, y: seq<int>): int {
    if x == [] then 0 else FromOne(x[0], y) + AllPairs(x[1..], y)
  }

  function FromOne(v: int, y: seq<int>): int {
    if y == [] then 0 else (v - y[0]) * (v - y[0]) + FromOne(v, y[1..])
  }

  lemma {:induction false} FromOneExpands(v: int, y: seq<int>)
    ensures FromOne(v, y) == |y| * (v * v) - 2 * (v * Total(y)) + Products(y, y)
  {
    if y != [] {
      FromOneExpands(v, y[1..]);
      var m, t, w := |y[1..]|, Total(y[1..]), y[0];
      assert (v - w) * (v - w) == v * v - 2 * (v * w) + w * w;
      assert (m + 1) * (v * v) == m * (v * v) + v * v;
      assert v * (w + t) == v * w + v * t;
    }
  }

  lemma {:induction false} FromOneNonNegative(v: int, y: seq<int>)
    ensures FromOne(v, y) >= 0
    ensures FromOne(v, y) == 0 ==> forall i :: 0 <= i < |y| ==> y[i] == v
  {
    if y != [] {
      FromOneNonNegative(v, y[1..]);
      IntSquareSign(v - y[0]);
    }
  }

  lemma IntSquareSign(d: int)
    ensures d * d >= 0
    ensures d * d == 0 <==> d == 0
  {
    if d > 0 { assert d * d >= d; }
    if d < 0 { assert (-d) * (-d) >= -d; }
  }

  /** n times the sum of squares is at least the square of the sum; equal only for a constant. */
  lemma {:induction false} SpreadNonNegative(z: seq<int>)
    ensures CovarianceTotal(z, z) >= 0
    ensures CovarianceTotal(z, z) == 0 ==> forall i, j :: 0 <= i < |z| && 0 <= j < |z| ==> z[i] == z[j]
  {
    if z != [] {
      var rest, v := z[1..], z[0];
      SpreadNonNegative(rest);
      FromOneExpands(v, rest);
      FromOneNonNegative(v, rest);
      SpreadStep(|rest|, Products(rest, rest), Total(rest), v);
    }
  }

  lemma SpreadStep(m: int, s2: int, s: int, v: int)
    ensures (m + 1) * (v * v + s2) - (v + s) * (v + s) == (m * s2 - s * s) + (m * (v * v) - 2 * (v * s) + s2)
  {
    assert (m + 1) * (v * v + s2) == m * (v * v) + m * s2 + v * v + s2;
    assert (v + s) * (v + s) == v * v + 2 * (v * s) + s * s;
  }

  lemma {:induction false} AllPairsExpands(x: seq<int>, y: seq<int>)
    ensures AllPairs(x, y) == |y| * Products(x, x) - 2 * (Total(x) * Total(y)) + |x| * Products(y, y)
  {
    if x != [] {
      AllPairsExpands(x[1..], y);
      FromOneExpands(x[0], y);
      AllPairsStep(x[0], |y|, Total(y), Products(y, y), |x[1..]|, Total(x[1..]), Products(x[1..], x[1..]));
    }
  }

  lemma AllPairsStep(v: int, n: int, t: int, p: int, m: int, s: int, q: int)
    ensures (n * (v * v) - 2 * (v * t) + p) + (n * q - 2 * (s * t) + m * p)
            == n * (v * v + q) - 2 * ((v + s) * t) + (m + 1) * p
  {
    assert n * (v * v + q) == n * (v * v) + n * q;
    assert (v + s) * t == v * t + s * t;
    assert (m + 1) * p == m * p + p;
  }

  lemma {:induction false} SquaredDifferencesExpand(x: seq<int>, y: seq<int>)
    requires |x| == |y|
    ensures SquaredDifferences(x, y) == Products(x, x) - 2 * Products(x, y) + Products(y, y)
    ensures SquaredDifferences(x, y) >= 0
    ensures SquaredDifferences(x, y) == 0 <==> x == y
  {
    if x != [] {
      SquaredDifferencesExpand(x[1..], y[1..]);
      var v, w := x[0], y[0];
      assert (v - w) * (v - w) == v * v - 2 * (v * w) + w * w;
      IntSquareSign(v - w);
      assert x == [v] + x[1..] && y == [w] + y[1..];
    }
  }

  // ---------------------------------------------------------------------------------------
  // The disagreements in moments
  // ---------------------------------------------------------------------------------------

  ghost function CountedRow(v: int, y: seq<int>): int {
    SquaredGap(v, 1) * Count(y, 1) + SquaredGap(v, 2) * Count(y, 2)
    + SquaredGap(v, 3) * Count(y, 3) + SquaredGap(v, 4) * Count(y, 4)
  }

  /** Grouping the answers of one rater by level loses nothing. */
  lemma {:induction false} CountedRowIsFromOne(v: int, y: seq<int>)
    requires ValidLevels(y)
    ensures CountedRow(v, y) == FromOne(v, y)
  {
    if y != [] {
      assert ValidLevel(y[0]);
      assert ValidLevels(y[1..]) by {
        assert forall i :: 0 <= i < |y[1..]| ==> y[1..][i] == y[i + 1];
      }
      CountedRowIsFromOne(v, y[1..]);
      CountedRowStep(v, y);
    }
  }

  lemma CountedRowStep(v: int, y: seq<int>)
    requires y != [] && ValidLevel(y[0])
    ensures CountedRow(v, y) == SquaredGap(v, y[0]) + CountedRow(v, y[1..])
  {
    hide SquaredGap;
    OneMore(SquaredGap(v, 1), Count(y[1..], 1));
    OneMore(SquaredGap(v, 2), Count(y[1..], 2));
    OneMore(SquaredGap(v, 3), Count(y[1..], 3));
    OneMore(SquaredGap(v, 4), Count(y[1..], 4));
  }

  lemma OneMore(k: int, c: int)
    ensures k * (1 + c) == k + k * c
    ensures k * (0 + c) == k * c
  {
  }

  ghost function CountedPairs(x: seq<int>, y: seq<int>): int {
    CountedRow(1, y) * Count(x, 1) + CountedRow(2, y) * Count(x, 2)
    + CountedRow(3, y) * Count(x, 3) + CountedRow(4, y) * Count(x, 4)
  }

  lemma {:induction false} CountedPairsAreAllPairs(x: seq<int>, y: seq<int>)
    requires ValidLevels(x) && ValidLevels(y)
    ensures CountedPairs(x, y) == AllPairs(x, y)
  {
    if x != [] {
      assert ValidLevel(x[0]);
      assert ValidLevels(x[1..]) by {
        assert forall i :: 0 <= i < |x[1..]| ==> x[1..][i] == x[i + 1];
      }
      CountedPairsAreAllPairs(x[1..], y);
      CountedRowIsFromOne(x[0], y);
      CountedPairsStep(x, y);
    }
  }

  lemma CountedPairsStep(x: seq<int>, y: seq<int>)
    requires x != [] && ValidLevel(x[0])
    ensures CountedPairs(x, y) == CountedRow(x[0], y) + CountedPairs(x[1..], y)
  {
    hide CountedRow;
    OneMore(CountedRow(1, y), Count(x[1..], 1));
    OneMore(CountedRow(2, y), Count(x[1..], 2));
    OneMore(CountedRow(3, y), Count(x[1..], 3));
    OneMore(CountedRow(4, y), Count(x[1..], 4));
  }

  lemma {:induction false} PairDisagreementCounts(x: seq<int>, y: seq<int>)
    requires |x| == |y|
    ensures 9.0 * PairDisagreement(x, y) == SquaredDifferences(x, y) as real
  {
    if x != [] {
      PairDisagreementCounts(x[1..], y[1..]);
      assert 9.0 * Weight(x[0], y[0]) == SquaredGap(x[0], y[0]) as real;
    }
  }

  /** Nine times the squared count, the common denominator of the expected disagreement. */
  ghost function Common(n: nat): real {
    9.0 * (n as real * n as real)
  }

  lemma TermNumbers(w: real, a: real, b: real, n: real, k: real, c: real, d: real)
    requires 9.0 * w == k && n * a == c && n * b == d
    ensures (9.0 * (n * n)) * (w * a * b) == k * c * d
  {
    calc {
      (9.0 * (n * n)) * (w * a * b);
    ==
      (9.0 * w) * (n * a) * (n * b);
    ==
      k * c * d;
    }
  }

  lemma TermCounts(x: seq<int>, y: seq<int>, left: int, right: int, n: nat)
    requires n > 0
    ensures Common(n) * Term(x, y, left, right, n) ==
            SquaredGap(left, right) as real * Count(x, left) as real * Count(y, right) as real
  {
    hide Count, SquaredGap;
    ShareTimes(x, left, n);
    ShareTimes(y, right, n);
    TermNumbers(Weight(left, right), Share(x, left, n), Share(y, right, n), n as real,
                SquaredGap(left, right) as real, Count(x, left) as real, Count(y, right) as real);
  }

  lemma ShareTimes(x: seq<int>, level: int, n: nat)
    requires n > 0
    ensures n as real * Share(x, level, n) == Count(x, level) as real
  {
    hide Count;
    QuotientTimes(Count(x, level) as real, n as real);
  }

  lemma IntProducts(k: int, c: int, d: int)
    ensures k as real * c as real * d as real == (k * d * c) as real
  {
    assert k as real * c as real == (k * c) as real;
    assert (k * c) as real * d as real == (k * c * d) as real;
    assert k * c * d == k * d * c;
  }

  lemma DistributeFour(k: real, a: real, b: real, c: real, d: real)
    ensures k * (a + b + c + d) == k * a + k * b + k * c + k * d
  {
  }

  lemma SumTimes(a: int, b: int, c: int, d: int, k: int)
    ensures (a + b + c + d) * k == a * k + b * k + c * k + d * k
  {
  }

  /** One row of the expected disagreement, over the common denominator. */
  lemma RowCounts(x: seq<int>, y: seq<int>, left: int, n: nat)
    requires n > 0
    ensures Common(n) * TermRow(x, y, left, n) == (CountedRow(left, y) * Count(x, left)) as real
  {
    hide Count, SquaredGap, Common, Term;
    DistributeFour(Common(n), Term(x, y, left, 1, n), Term(x, y, left, 2, n),
                   Term(x, y, left, 3, n), Term(x, y, left, 4, n));
    TermAsInt(x, y, left, 1, n);
    TermAsInt(x, y, left, 2, n);
    TermAsInt(x, y, left, 3, n);
    TermAsInt(x, y, left, 4, n);
    SumTimes(SquaredGap(left, 1) * Count(y, 1), SquaredGap(left, 2) * Count(y, 2),
             SquaredGap(left, 3) * Count(y, 3), SquaredGap(left, 4) * Count(y, 4), Count(x, left));
  }

  lemma TermAsInt(x: seq<int>, y: seq<int>, left: int, right: int, n: nat)
    requires n > 0
    ensures Common(n) * Term(x, y, left, right, n) ==
            (SquaredGap(left, right) * Count(y, right) * Count(x, left)) as real
  {
    hide Count, SquaredGap, Common, Term;
    TermCounts(x, y, left, right, n);
    IntProducts(SquaredGap(left, right), Count(x, left), Count(y, right));
  }

  /** The expected disagreement counts all pairs of answers. */
  lemma ExpectedCountsAllPairs(x: seq<int>, y: seq<int>)
    requires |x| == |y| > 0 && ValidLevels(x) && ValidLevels(y)
    ensures Common(|x|) * ExpectedDisagreement(x, y) == AllPairs(x, y) as real
  {
    hide Count, Common, CountedRow, AllPairs, TermRow;
    var n := |x|;
    DistributeFour(Common(n), TermRow(x, y, 1, n), TermRow(x, y, 2, n), TermRow(x, y, 3, n), TermRow(x, y, 4, n));
    RowCounts(x, y, 1, n);
    RowCounts(x, y, 2, n);
    RowCounts(x, y, 3, n);
    RowCounts(x, y, 4, n);
    CountedPairsAreAllPairs(x, y);
  }

  // ---------------------------------------------------------------------------------------
  // Kappa in moments
  // ---------------------------------------------------------------------------------------

  /** All pairs split into the two spreads and the squared difference of the totals. */
  lemma AllPairsSplit(x: seq<int>, y: seq<int>)
    requires |x| == |y|
    ensures AllPairs(x, y) ==
            CovarianceTotal(x, x) + CovarianceTotal(y, y) + (Total(x) - Total(y)) * (Total(x) - Total(y))
    ensures AllPairs(x, y) - |x| * SquaredDifferences(x, y) == 2 * CovarianceTotal(x, y)
  {
    AllPairsExpands(x, y);
    SquaredDifferencesExpand(x, y);
    SplitNumbers(|x|, Products(x, x), Products(x, y), Products(y, y), Total(x), Total(y));
  }

  lemma SplitNumbers(n: int, xx: int, xy: int, yy: int, tx: int, ty: int)
    ensures n * xx - 2 * (tx * ty) + n * yy == (n * xx - tx * tx) + (n * yy - ty * ty) + (tx - ty) * (tx - ty)
    ensures (n * xx - 2 * (tx * ty) + n * yy) - n * (xx - 2 * xy + yy) == 2 * (n * xy - tx * ty)
  {
    assert (tx - ty) * (tx - ty) == tx * tx - 2 * (tx * ty) + ty * ty;
    assert n * (xx - 2 * xy + yy) == n * xx - 2 * (n * xy) + n * yy;
  }

  lemma ConstantHasOneLevel(x: seq<int>)
    requires forall i, j :: 0 <= i < |x| && 0 <= j < |x| ==> x[i] == x[j]
    ensures |Distinct(x)| < 2
  {
    if x == [] {
      assert Distinct(x) == {};
    } else {
      assert forall level :: level in Distinct(x) <==> level == x[0];
      assert Distinct(x) == {x[0]};
    }
  }

  lemma OneLevelIsConstant(x: seq<int>)
    requires |Distinct(x)| < 2
    ensures forall i, j :: 0 <= i < |x| && 0 <= j < |x| ==> x[i] == x[j]
  {
    forall i, j | 0 <= i < |x| && 0 <= j < |x|
      ensures x[i] == x[j]
    {
      var pair := {x[i], x[j]};
      assert pair <= Distinct(x);
      SubsetSize(pair, Distinct(x));
    }
  }

  lemma SubsetSize(a: set<int>, b: set<int>)
    requires a <= b
    ensures |a| <= |b|
  {
    assert b == a + (b - a);
  }

  /** Two raters who each use two levels always have a positive expected disagreement. */
  lemma ExpectedIsPositive(x: seq<int>, y: seq<int>)
    requires |x| == |y| > 0 && ValidLevels(x) && ValidLevels(y) && |Distinct(x)| >= 2
    ensures AllPairs(x, y) > 0
    ensures ExpectedDisagreement(x, y) > 0.0
  {
    hide AllPairs, ExpectedDisagreement, Count, CovarianceTotal, Common, Total;
    SpreadNonNegative(x);
    SpreadNonNegative(y);
    if CovarianceTotal(x, x) == 0 { ConstantHasOneLevel(x); }
    AllPairsSplit(x, y);
    IntSquareSign(Total(x) - Total(y));
    ExpectedCountsAllPairs(x, y);
    CommonIsPositive(|x|);
    PositiveQuotient(Common(|x|), ExpectedDisagreement(x, y));
  }

  lemma CommonIsPositive(n: nat)
    requires n > 0
    ensures Common(n) > 0.0
  {
    PositiveProduct(n as real, n as real);
  }

  lemma PositiveQuotient(k: real, e: real)
    requires k > 0.0 && k * e > 0.0
    ensures e > 0.0
  {
    if e == 0.0 {
      ZeroFactor(k, e);
    } else if e < 0.0 {
      PositiveProduct(k, -e);
      NegateOne(e, k);
    }
  }

  /** Both raters' answers have a kappa. */
  predicate Rateable(x: seq<int>, y: seq<int>) {
    |x| == |y| && ValidLevels(x) && ValidLevels(y) && |x| >= 2 && |Distinct(x)| >= 2 && |Distinct(y)| >= 2
  }

  /** The value of kappa, in whole numbers: twice the covariance over all pairs. */
  ghost function KappaNumerator(x: seq<int>, y: seq<int>): real
    requires |x| == |y|
  {
    2.0 * CovarianceTotal(x, y) as real
  }

  lemma KappaValue(x: seq<int>, y: seq<int>)
    requires Rateable(x, y)
    ensures AllPairs(x, y) > 0
    ensures QuadraticWeightedKappa(x, y) == Ok(Some(KappaNumerator(x, y) / AllPairs(x, y) as real))
  {
    hide AllPairs, ExpectedDisagreement, ObservedDisagreement, Common, CovarianceTotal, SquaredDifferences, Distinct;
    var n, w := |x|, AllPairs(x, y);
    var observed, expected := ObservedDisagreement(x, y), ExpectedDisagreement(x, y);
    ExpectedIsPositive(x, y);
    ExpectedCountsAllPairs(x, y);
    ObservedCounts(x, y);
    AllPairsSplit(x, y);
    CommonIsPositive(n);
    KappaNumbers(Common(n), observed, expected, n * SquaredDifferences(x, y), w);
  }

  lemma KappaNumbers(k: real, o: real, e: real, d: int, w: int)
    requires k > 0.0 && e > 0.0 && w > 0 && k * o == d as real && k * e == w as real
    ensures 1.0 - o / e == (w - d) as real / w as real
  {
    CancelFactor(k, o, e);
    OneMinusQuotient(d, w);
  }

  lemma ObservedCounts(x: seq<int>, y: seq<int>)
    requires |x| == |y| > 0
    ensures Common(|x|) * ObservedDisagreement(x, y) == (|x| * SquaredDifferences(x, y)) as real
  {
    hide PairDisagreement, SquaredDifferences;
    PairDisagreementCounts(x, y);
    QuotientTimes(PairDisagreement(x, y), |x| as real);
    ObservedNumbers(|x| as real, ObservedDisagreement(x, y), PairDisagreement(x, y));
  }

  lemma ObservedNumbers(n: real, o: real, p: real)
    requires n * o == p
    ensures (9.0 * (n * n)) * o == n * (9.0 * p)
  {
    calc {
      (9.0 * (n * n)) * o;
    ==
      n * (9.0 * (n * o));
    ==
      n * (9.0 * p);
    }
  }

  lemma OneMinusQuotient(d: int, w: int)
    requires w > 0
    ensures 1.0 - d as real / w as real == (w - d) as real / w as real
  {
    var q := d as real / w as real;
    QuotientTimes(d as real, w as real);
    Distribute(w as real, 1.0, q);
    QuotientUnique((w - d) as real, w as real, 1.0 - q);
  }

  /** Between -1 and 1, and 1 exactly when all pairs agree. */
  lemma KappaRange(x: seq<int>, y: seq<int>)
    requires Rateable(x, y)
    ensures QuadraticWeightedKappa(x, y).Ok? && QuadraticWeightedKappa(x, y).value.Some?
    ensures var kappa := QuadraticWeightedKappa(x, y).value.value;
            -1.0 <= kappa <= 1.0 && (kappa == 1.0 <==> x == y)
  {
    hide AllPairs, QuadraticWeightedKappa, CovarianceTotal, SquaredDifferences, Distinct;
    KappaValue(x, y);
    AllPairsSplit(x, y);
    SquaredDifferencesExpand(x, y);
    var n, d := |x|, SquaredDifferences(x, y);
    IntProductSign(n, d);
    OtherBound(x, y);
    QuotientRange(KappaNumerator(x, y), AllPairs(x, y) as real);
  }

  lemma IntProductSign(n: int, d: int)
    requires n > 0 && d >= 0
    ensures n * d >= 0
    ensures n * d == 0 <==> d == 0
  {
    if d > 0 { assert n * d >= d; }
  }

  function Sums(x: seq<int>, y: seq<int>): (z: seq<int>)
    requires |x| == |y|
    ensures |z| == |x|
  {
    if x == [] then [] else [x[0] + y[0]] + Sums(x[1..], y[1..])
  }

  lemma {:induction false} MomentsOfSums(x: seq<int>, y: seq<int>)
    requires |x| == |y|
    ensures Total(Sums(x, y)) == Total(x) + Total(y)
    ensures Products(Sums(x, y), Sums(x, y)) == Products(x, x) + 2 * Products(x, y) + Products(y, y)
  {
    if x != [] {
      MomentsOfSums(x[1..], y[1..]);
      assert Sums(x, y)[1..] == Sums(x[1..], y[1..]);
      SquareOfIntSum(x[0], y[0]);
    }
  }

  lemma SquareOfIntSum(a: int, b: int)
    ensures (a + b) * (a + b) == a * a + 2 * (a * b) + b * b
  {
  }

  /** All pairs plus twice the covariance is a spread and a square. */
  lemma OtherBound(x: seq<int>, y: seq<int>)
    requires |x| == |y|
    ensures AllPairs(x, y) + 2 * CovarianceTotal(x, y) >= 0
  {
    var z := Sums(x, y);
    SpreadNonNegative(z);
    MomentsOfSums(x, y);
    AllPairsExpands(x, y);
    IntSquareSign(Total(x) - Total(y));
    hide AllPairs, Products, Total;
    OtherBoundNumbers(|x|, Products(x, x), Products(x, y), Products(y, y), Total(x), Total(y));
  }

  lemma OtherBoundNumbers(n: int, xx: int, xy: int, yy: int, tx: int, ty: int)
    ensures n * xx - 2 * (tx * ty) + n * yy + 2 * (n * xy - tx * ty) ==
            (n * (xx + 2 * xy + yy) - (tx + ty) * (tx + ty)) + (tx - ty) * (tx - ty)
  {
    assert n * (xx + 2 * xy + yy) == n * xx + 2 * (n * xy) + n * yy;
    SquareOfIntSum(tx, ty);
    assert (tx - ty) * (tx - ty) == tx * tx - 2 * (tx * ty) + ty * ty;
  }

  /** Kappa is refused exactly for lists of different length and for levels outside one to four. */
  lemma KappaIsRefused(x: seq<int>, y: seq<int>)
    ensures QuadraticWeightedKappa(x, y).Error? <==>
            || |x| != |y|
            || (exists i :: 0 <= i < |x| && (x[i] < 1 || x[i] > 4))
            || (exists i :: 0 <= i < |y| && (y[i] < 1 || y[i] > 4))
  {
    hide ExpectedDisagreement, ObservedDisagreement;
  }

  /** No kappa exactly when there are fewer than two pairs or a rater used a single level. */
  lemma KappaIsMissing(x: seq<int>, y: seq<int>)
    requires |x| == |y| && ValidLevels(x) && ValidLevels(y)
    ensures QuadraticWeightedKappa(x, y) == Ok(None) <==>
            |x| < 2 || (forall i :: 0 <= i < |x| ==> x[i] == x[0]) || (forall i :: 0 <= i < |y| ==> y[i] == y[0])
  {
    if Rateable(x, y) {
      KappaRange(x, y);
      if forall i :: 0 <= i < |x| ==> x[i] == x[0] { ConstantHasOneLevel(x); }
      if forall i :: 0 <= i < |y| ==> y[i] == y[0] { ConstantHasOneLevel(y); }
    } else if |x| >= 2 {
      if |Distinct(x)| < 2 { OneLevelIsConstant(x); }
      if |Distinct(y)| < 2 { OneLevelIsConstant(y); }
    }
  }

  lemma {:induction false} ProductsSymmetric(x: seq<int>, y: seq<int>)
    requires |x| == |y|
    ensures Products(x, y) == Products(y, x)
  {
    if x != [] { ProductsSymmetric(x[1..], y[1..]); }
  }

  /** Kappa does not depend on which observer is called primary. */
  lemma KappaSymmetric(x: seq<int>, y: seq<int>)
    requires Rateable(x, y)
    ensures QuadraticWeightedKappa(x, y) == QuadraticWeightedKappa(y, x)
  {
    hide QuadraticWeightedKappa, AllPairs, CovarianceTotal, Distinct;
    KappaValue(x, y);
    KappaValue(y, x);
    MomentsSymmetric(x, y);
  }

  lemma MomentsSymmetric(x: seq<int>, y: seq<int>)
    requires |x| == |y|
    ensures AllPairs(x, y) == AllPairs(y, x) && CovarianceTotal(x, y) == CovarianceTotal(y, x)
  {
    AllPairsExpands(x, y);
    AllPairsExpands(y, x);
    ProductsSymmetric(x, y);
    hide AllPairs, Products;
    var tx, ty := Total(x), Total(y);
    assert tx * ty == ty * tx;
  }

  // ---------------------------------------------------------------------------------------
  // Kappa in means, variances and the covariance
  // ---------------------------------------------------------------------------------------

  ghost function MeanOf(x: seq<int>): real
    requires |x| > 0
  {
    Total(x) as real / |x| as real
  }

  ghost function Deviation(v: real, a: real, w: real, b: real): real {
    (v - a) * (w - b)
  }

  ghost function CrossDeviation(x: seq<int>, a: real, y: seq<int>, b: real): real
    requires |x| == |y|
  {
    if x == [] then 0.0
    else Deviation(x[0] as real, a, y[0] as real, b) + CrossDeviation(x[1..], a, y[1..], b)
  }

  ghost function Covariance(x: seq<int>, y: seq<int>): real
    requires |x| == |y| > 0
  {
    CrossDeviation(x, MeanOf(x), y, MeanOf(y)) / |x| as real
  }

  /** The expansion of a sum of deviation products, in numbers. */
  ghost function DeviationMoments(p: real, s: real, t: real, m: real, a: real, b: real): real {
    p - a * t - b * s + m * (a * b)
  }

  lemma {:induction false} CrossDeviationExpands(x: seq<int>, a: real, y: seq<int>, b: real)
    requires |x| == |y|
    ensures CrossDeviation(x, a, y, b) ==
            DeviationMoments(Products(x, y) as real, Total(x) as real, Total(y) as real, |x| as real, a, b)
  {
    hide DeviationMoments, Deviation;
    if x == [] {
      NoMoments(Products(x, y) as real, Total(x) as real, Total(y) as real, |x| as real, a, b);
    } else {
      CrossDeviationExpands(x[1..], a, y[1..], b);
      ProductsStep(x, y);
      var more := DeviationMoments(Products(x, y) as real, Total(x) as real, Total(y) as real, |x| as real, a, b);
      assert Deviation(x[0] as real, a, y[0] as real, b)
             + DeviationMoments(Products(x[1..], y[1..]) as real, Total(x[1..]) as real, Total(y[1..]) as real,
                                |x[1..]| as real, a, b)
             == more by {
        DeviationStep(x[0] as real, a, y[0] as real, b,
                      Products(x[1..], y[1..]) as real, Total(x[1..]) as real, Total(y[1..]) as real, |x[1..]| as real,
                      Products(x, y) as real, Total(x) as real, Total(y) as real, |x| as real);
      }
    }
  }

  lemma NoMoments(p: real, s: real, t: real, m: real, a: real, b: real)
    requires p == s == t == m == 0.0
    ensures DeviationMoments(p, s, t, m, a, b) == 0.0
  {
    ZeroFactor(a, 0.0);
    ZeroFactor(b, 0.0);
    ZeroFactor(0.0, a * b);
  }

  lemma ProductsStep(x: seq<int>, y: seq<int>)
    requires |x| == |y| > 0
    ensures Products(x, y) as real == x[0] as real * y[0] as real + Products(x[1..], y[1..]) as real
  {
    IntTimes(x[0], y[0]);
  }

  lemma IntTimes(v: int, w: int)
    ensures (v * w) as real == v as real * w as real
  {
  }

  lemma DeviationStep(v: real, a: real, w: real, b: real, p: real, s: real, t: real, m: real,
                      p1: real, s1: real, t1: real, m1: real)
    requires p1 == v * w + p && s1 == v + s && t1 == w + t && m1 == m + 1.0
    ensures Deviation(v, a, w, b) + DeviationMoments(p, s, t, m, a, b) == DeviationMoments(p1, s1, t1, m1, a, b)
  {
    hide Deviation, DeviationMoments;
    DeviationGrows(v, a, w, b, p, s, t, m);
  }

  lemma DeviationGrows(v: real, a: real, w: real, b: real, p: real, s: real, t: real, m: real)
    ensures Deviation(v, a, w, b) + DeviationMoments(p, s, t, m, a, b) ==
            DeviationMoments(v * w + p, v + s, w + t, m + 1.0, a, b)
  {
    assert (v - a) * (w - b) == v * w - v * b - a * w + a * b;
    Distribute(a, w, t);
    Distribute(b, v, s);
    Distribute(a * b, m, 1.0);
  }

  ghost function TimesCountSquared(n: nat, c: real): real {
    n as real * n as real * c
  }

  /** The covariance of the definition is the whole-number one over the squared count. */
  lemma CovarianceIsTotal(x: seq<int>, y: seq<int>)
    requires |x| == |y| > 0
    ensures TimesCountSquared(|x|, Covariance(x, y)) == CovarianceTotal(x, y) as real
  {
    hide CrossDeviation, Total, Products, DeviationMoments;
    var n, s, t, p := |x| as real, Total(x) as real, Total(y) as real, Products(x, y) as real;
    CrossDeviationExpands(x, MeanOf(x), y, MeanOf(y));
    QuotientTimes(s, n);
    QuotientTimes(t, n);
    QuotientTimes(CrossDeviation(x, MeanOf(x), y, MeanOf(y)), n);
    CovarianceNumbers(n, s, t, p, MeanOf(x), MeanOf(y), CrossDeviation(x, MeanOf(x), y, MeanOf(y)), Covariance(x, y));
    IntTimes(|x|, Products(x, y));
    IntTimes(Total(x), Total(y));
  }

  lemma CovarianceNumbers(n: real, s: real, t: real, p: real, a: real, b: real, d: real, c: real)
    requires n * a == s && n * b == t && n * c == d && d == DeviationMoments(p, s, t, n, a, b)
    ensures n * n * c == n * p - s * t
  {
    calc {
      n * n * c;
    ==
      n * (n * c);
    ==
      n * (p - a * t - b * s + n * (a * b));
    ==
      n * p - (n * a) * t - (n * b) * s + (n * a) * (n * b);
    ==
      n * p - s * t;
    }
  }

  ghost function Squared(v: real): real {
    v * v
  }

  /** The two variances and the squared difference of the means. */
  ghost function ConcordanceScale(x: seq<int>, y: seq<int>): real
    requires |x| == |y| > 0
  {
    Covariance(x, x) + Covariance(y, y) + Squared(MeanOf(x) - MeanOf(y))
  }

  /**
   Kappa is twice the covariance over the two variances and the squared difference of the
   means, which makes it Lin's concordance coefficient of the two raters.
   */
  lemma KappaIsConcordance(x: seq<int>, y: seq<int>)
    requires Rateable(x, y)
    ensures ConcordanceScale(x, y) > 0.0
    ensures QuadraticWeightedKappa(x, y) == Ok(Some(2.0 * Covariance(x, y) / ConcordanceScale(x, y)))
  {
    hide QuadraticWeightedKappa, AllPairs, CovarianceTotal, Distinct, Covariance, Total, MeanOf, TimesCountSquared,
         Squared;
    KappaValue(x, y);
    CovarianceIsTotal(x, x);
    CovarianceIsTotal(y, y);
    CovarianceIsTotal(x, y);
    AllPairsFromSpreads(x, y);
    MeanShift(x, y);
    ConcordanceNumbers(|x|, Covariance(x, x), Covariance(y, y), Covariance(x, y), MeanOf(x), MeanOf(y),
                       Total(x) as real - Total(y) as real, AllPairs(x, y) as real, CovarianceTotal(x, y) as real);
  }

  lemma AllPairsFromSpreads(x: seq<int>, y: seq<int>)
    requires |x| == |y|
    ensures AllPairs(x, y) as real ==
            CovarianceTotal(x, x) as real + CovarianceTotal(y, y) as real + Squared(Total(x) as real - Total(y) as real)
  {
    hide AllPairs, CovarianceTotal, Total;
    AllPairsSplit(x, y);
    IntTimes(Total(x) - Total(y), Total(x) - Total(y));
  }

  ghost predicate ShiftsBy(n: real, mx: real, my: real, gap: real) {
    n * mx - n * my == gap
  }

  lemma MeanShift(x: seq<int>, y: seq<int>)
    requires |x| == |y| > 0
    ensures ShiftsBy(|x| as real, MeanOf(x), MeanOf(y), Total(x) as real - Total(y) as real)
  {
    QuotientTimes(Total(x) as real, |x| as real);
    QuotientTimes(Total(y) as real, |x| as real);
  }

  lemma ConcordanceNumbers(
      count: nat, vx: real, vy: real, c: real, mx: real, my: real, gap: real, w: real, total: real)
    requires count > 0 && w > 0.0 && ShiftsBy(count as real, mx, my, gap) && TimesCountSquared(count, c) == total
    requires w == TimesCountSquared(count, vx) + TimesCountSquared(count, vy) + Squared(gap)
    ensures var scale := vx + vy + Squared(mx - my);
            scale > 0.0 && 2.0 * c / scale == 2.0 * total / w
  {
    var n, shift := count as real, mx - my;
    var scale, k := vx + vy + shift * shift, n * n;
    PositiveProduct(n, n);
    assert k * scale == w by {
      Distribute(n, mx, my);
      assert n * shift == gap;
      ShiftSquared(n, shift, gap);
      assert k * scale == k * vx + k * vy + k * (shift * shift);
    }
    PositiveQuotient(k, scale);
    CancelFactor(k, 2.0 * c, scale);
    assert k * (2.0 * c) == 2.0 * total;
  }

  lemma ShiftSquared(n: real, shift: real, gap: real)
    requires n * shift == gap
    ensures n * n * (shift * shift) == gap * gap
  {
    calc {
      n * n * (shift * shift);
    ==
      (n * shift) * (n * shift);
    ==
      gap * gap;
    }
  }
}
