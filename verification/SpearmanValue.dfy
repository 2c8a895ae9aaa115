/**
 What Spearman's coefficient is (`spearman_rank_correlation` in backend/scripts/run_eval.py): the covariance of the
 ranks over the root of their two variances, and without ties the classical formula over squared rank differences.
 */
module SpearmanValue {
  import opened AverageRanks
  import opened Outcomes
  import opened RankCorrelation
  import opened RealAlgebra

  function Times(x: real, y: real): real {
    x * y
  }

  function Products(a: seq<real>, b: seq<real>): (products: seq<real>)
    requires |a| == |b|
    ensures |products| == |a| && forall i :: 0 <= i < |a| ==> products[i] == Times(a[i], b[i])
  {
    seq(|a|, i requires 0 <= i < |a| => Times(a[i], b[i]))
  }

  function SquaredDifferences(a: seq<real>, b: seq<real>): (squares: seq<real>)
    requires |a| == |b|
    ensures |squares| == |a| && forall i :: 0 <= i < |a| ==> squares[i] == Times(a[i] - b[i], a[i] - b[i])
  {
    seq(|a|, i requires 0 <= i < |a| => Times(a[i] - b[i], a[i] - b[i]))
  }

  /** The covariance of two lists, times the square of their length. */
  function Covariance(a: seq<real>, b: seq<real>): real
    requires |a| == |b|
  {
    |a| as real * Sum(Products(a, b)) - Sum(a) * Sum(b)
  }

  // ---------------------------------------------------------------------------------------
  // Centered products
  // ---------------------------------------------------------------------------------------

  ghost function Shifted(a: seq<real>, m: real): (b: seq<real>)
    ensures |b| == |a| && forall i :: 0 <= i < |a| ==> b[i] == a[i] - m
  {
    seq(|a|, i requires 0 <= i < |a| => a[i] - m)
  }

  ghost function ShiftedDot(products: real, a: real, b: real, n: real, m: real, k: real): real {
    products - k * a - m * b + n * (m * k)
  }

  lemma {:induction false} DotOfShifted(a: seq<real>, b: seq<real>, m: real, k: real)
    requires |a| == |b|
    ensures Dot(Shifted(a, m), Shifted(b, k)) ==
            ShiftedDot(Sum(Products(a, b)), Sum(a), Sum(b), |a| as real, m, k)
  {
    if a == [] {
      assert m * 0.0 == k * 0.0 == 0.0 * (m * k) == 0.0;
    } else {
      hide ShiftedDot, Times, Dot;
      assert Shifted(a, m)[1..] == Shifted(a[1..], m) && Shifted(b, k)[1..] == Shifted(b[1..], k);
      DotHead(Shifted(a, m), Shifted(b, k));
      ProductsTail(a, b);
      DotOfShifted(a[1..], b[1..], m, k);
      OneMoreShifted(a[0], b[0], Sum(Products(a[1..], b[1..])), Sum(a[1..]), Sum(b[1..]), |a[1..]| as real, m, k);
    }
  }

  lemma DotHead(a: seq<real>, b: seq<real>)
    requires |a| == |b| > 0
    ensures Dot(a, b) == Times(a[0], b[0]) + Dot(a[1..], b[1..])
  {
  }

  lemma ProductsTail(a: seq<real>, b: seq<real>)
    requires |a| == |b| > 0
    ensures Products(a, b)[1..] == Products(a[1..], b[1..]) && Products(a, b)[0] == Times(a[0], b[0])
  {
    hide Times;
  }

  lemma OneMoreShifted(x: real, y: real, products: real, a: real, b: real, n: real, m: real, k: real)
    ensures Times(x - m, y - k) + ShiftedDot(products, a, b, n, m, k) ==
            ShiftedDot(Times(x, y) + products, x + a, y + b, n + 1.0, m, k)
  {
    assert (x - m) * (y - k) == x * y - k * x - m * y + m * k;
    assert k * (x + a) == k * x + k * a;
    assert m * (y + b) == m * y + m * b;
    assert (n + 1.0) * (m * k) == n * (m * k) + m * k;
  }

  /** The inner product of the centered lists, times their length, is the covariance. */
  lemma CenteredDot(a: seq<real>, b: seq<real>)
    requires |a| == |b| > 0
    ensures |a| as real * Dot(Centered(a), Centered(b)) == Covariance(a, b)
  {
    hide Sum, Dot;
    var m, k := Mean(a), Mean(b);
    assert Centered(a) == Shifted(a, m) && Centered(b) == Shifted(b, k);
    DotOfShifted(a, b, m, k);
    MeansCancel(Sum(Products(a, b)), Sum(a), Sum(b), |a| as real, m, k);
  }

  lemma MeansCancel(products: real, a: real, b: real, n: real, m: real, k: real)
    requires n > 0.0 && m == a / n && k == b / n
    ensures n * ShiftedDot(products, a, b, n, m, k) == n * products - a * b
  {
    QuotientTimes(a, n);
    QuotientTimes(b, n);
    assert n * (k * a) == a * b by { Associate(n, k, a); }
    assert n * (m * b) == a * b by { Associate(n, m, b); }
    assert n * (n * (m * k)) == a * b by {
      Associate(n, m, k);
      assert n * (m * k) == a * k;
      Associate(n, a, k);
      assert n * (a * k) == a * (n * k);
    }
    var s, t, u := k * a, m * b, n * (m * k);
    assert n * (products - s - t + u) == n * products - n * s - n * t + n * u;
  }

  // ---------------------------------------------------------------------------------------
  // With ties
  // ---------------------------------------------------------------------------------------

  /** The coefficient times the root of the two variances of the ranks is their covariance, ties included. */
  lemma SpearmanIsCovariance(predicted: seq<real>, observed: seq<real>, sqrt: real -> real)
    requires |predicted| == |observed| && IsSquareRoot(sqrt)
    requires SpearmanRankCorrelation(predicted, observed, sqrt).Ok?
    requires SpearmanRankCorrelation(predicted, observed, sqrt).value.Some?
    ensures var rho := SpearmanRankCorrelation(predicted, observed, sqrt).value.value;
            var r, s := Ranks(predicted), Ranks(observed);
            && Covariance(r, r) > 0.0 && Covariance(s, s) > 0.0
            && Times(rho, sqrt(Times(Covariance(r, r), Covariance(s, s)))) == Covariance(r, s)
  {
    hide Ranks, Centered, Dot, Covariance, IsSquareRoot, Denominator, Coefficients, Times;
    var r, s := Ranks(predicted), Ranks(observed);
    var left, right := Centered(r), Centered(s);
    CenteredDot(r, r);
    CenteredDot(s, s);
    CenteredDot(r, s);
    CoefficientsOf(left, right, sqrt);
    var rho := SpearmanRankCorrelation(predicted, observed, sqrt).value.value;
    var spread := Times(Covariance(r, r), Covariance(s, s));
    CoefficientFromNumbers(
      |predicted| as real, Dot(left, right), Dot(left, left), Dot(right, right), Denominator(left, right, sqrt),
      rho, Covariance(r, s), Covariance(r, r), Covariance(s, s), spread, sqrt);
  }

  lemma CoefficientFromNumbers(
      n: real, product: real, ll: real, rr: real, d: real, rho: real, cov: real, v: real, w: real,
      spread: real, sqrt: real -> real)
    requires IsSquareRoot(sqrt) && n > 0.0 && Coefficients(product, ll, rr, d) && d != 0.0
    requires rho == product / d && n * product == cov && n * ll == v && n * rr == w && spread == Times(v, w)
    ensures v > 0.0 && w > 0.0 && Times(rho, sqrt(spread)) == cov
  {
    hide IsSquareRoot;
    CoefficientRange(product, ll, rr, d);
    PositiveProduct(n, ll);
    PositiveProduct(n, rr);
    RootScales(n, ll, rr, d, v, w, spread, sqrt);
    QuotientTimes(product, d);
    TimesRoot(rho, sqrt(spread), n, d, product);
  }

  lemma TimesRoot(rho: real, root: real, n: real, d: real, product: real)
    requires root == n * d && d * rho == product
    ensures rho * root == n * product
  {
    Associate(n, d, rho);
  }

  lemma RootScales(n: real, ll: real, rr: real, d: real, v: real, w: real, spread: real, sqrt: real -> real)
    requires IsSquareRoot(sqrt) && n > 0.0 && ll >= 0.0 && rr >= 0.0 && d >= 0.0 && d * d == ll * rr
    requires n * ll == v && n * rr == w && spread == Times(v, w)
    ensures sqrt(spread) == n * d
  {
    assert spread == (n * n) * (ll * rr);
    assert (n * d) * (n * d) == (n * n) * (d * d);
    NonNegativeProduct(n * n, ll * rr);
    NonNegativeProduct(ll, rr);
    NonNegativeProduct(n, d);
    EqualSquares(sqrt(spread), n * d);
  }

  // ---------------------------------------------------------------------------------------
  // The ranks of values without ties
  // ---------------------------------------------------------------------------------------

  ghost predicate NoTies(values: seq<real>) {
    forall i, j :: 0 <= i < j < |values| ==> values[i] != values[j]
  }

  ghost function SquareSum(values: seq<real>, others: seq<real>): real {
    if values == [] then 0.0
    else
      var rank := 0.5 + TotalScore(values[0], others);
      Times(rank, rank) + SquareSum(values[1..], others)
  }

  lemma {:induction false} SquareSumAppend(a: seq<real>, b: seq<real>, others: seq<real>)
    ensures SquareSum(a + b, others) == SquareSum(a, others) + SquareSum(b, others)
  {
    hide Times, TotalScore;
    if a == [] {
      assert a + b == b;
    } else {
      assert (a + b)[1..] == a[1..] + b;
      SquareSumAppend(a[1..], b, others);
    }
  }

  lemma {:induction false} RanksSquared(values: seq<real>, others: seq<real>, ranks: seq<real>)
    requires |ranks| == |values|
    requires forall i :: 0 <= i < |values| ==> ranks[i] == 0.5 + TotalScore(values[i], others)
    ensures Sum(Products(ranks, ranks)) == SquareSum(values, others)
  {
    hide Times, TotalScore;
    if values != [] {
      ProductsTail(ranks, ranks);
      RanksSquared(values[1..], others, ranks[1..]);
    }
  }

  lemma {:induction false} ScoreAppend(v: real, a: seq<real>, b: seq<real>)
    ensures TotalScore(v, a + b) == TotalScore(v, a) + TotalScore(v, b)
  {
    if a == [] {
      assert a + b == b;
    } else {
      assert (a + b)[1..] == a[1..] + b;
      ScoreAppend(v, a[1..], b);
    }
  }

  /** A larger value among the others changes no rank. */
  lemma {:induction false} LargerAddsNothing(values: seq<real>, a: seq<real>, x: real, b: seq<real>)
    requires forall v :: v in values ==> v < x
    ensures SquareSum(values, a + [x] + b) == SquareSum(values, a + b)
  {
    hide Times;
    if values != [] {
      var v := values[0];
      assert v in values;
      ScoreAppend(v, a + [x], b);
      ScoreAppend(v, a, [x]);
      ScoreAppend(v, a, b);
      assert TotalScore(v, [x]) == 0.0;
      assert forall u :: u in values[1..] ==> u in values;
      LargerAddsNothing(values[1..], a, x, b);
    }
  }

  lemma {:induction false} LargestScore(x: real, others: seq<real>)
    requires forall v :: v in others ==> v < x
    ensures TotalScore(x, others) == |others| as real
  {
    if others != [] {
      assert others[0] in others;
      assert forall u :: u in others[1..] ==> u in others;
      LargestScore(x, others[1..]);
    }
  }

  lemma {:induction false} LargestIndex(values: seq<real>) returns (m: nat)
    requires values != []
    ensures m < |values| && forall i :: 0 <= i < |values| ==> values[i] <= values[m]
  {
    if |values| == 1 {
      m := 0;
    } else {
      var k := LargestIndex(values[1..]);
      m := if values[0] <= values[k + 1] then k + 1 else 0;
      forall i | 0 <= i < |values|
        ensures values[i] <= values[m]
      {
        assert i > 0 ==> values[1..][i - 1] == values[i];
      }
    }
  }

  ghost function Pyramid(n: real): real {
    n * (n + 1.0) * (2.0 * n + 1.0)
  }

  lemma PyramidStep(n: real)
    ensures Pyramid(n) == Pyramid(n - 1.0) + 6.0 * (n * n)
  {
    var sq := n * n;
    var cube := sq * n;
    assert Pyramid(n) == 2.0 * cube + 3.0 * sq + n;
    assert (n - 1.0) * n == sq - n;
    assert (sq - n) * (2.0 * n - 1.0) == 2.0 * cube - 3.0 * sq + n;
    assert Pyramid(n - 1.0) == (sq - n) * (2.0 * n - 1.0);
  }

  /** Without ties the squared ranks add up to 1 + 4 + ... + n squared. */
  lemma {:induction false} SquaresWithoutTies(values: seq<real>)
    requires NoTies(values)
    ensures 6.0 * SquareSum(values, values) == Pyramid(|values| as real)
    decreases |values|
  {
    hide Times, TotalScore, Pyramid, SquareSum;
    if values == [] {
      assert SquareSum([], []) == 0.0 && Pyramid(0.0) == 0.0 by { NoSquares(); }
    } else {
      var m := LargestIndex(values);
      var a, x, b := values[..m], values[m], values[m + 1..];
      var n := |values| as real;
      assert values == a + [x] + b;
      OthersAreSmaller(values, m);
      SquaresWithoutTies(a + b);
      LargerAddsNothing(a + b, a, x, b);
      LargestRank(a, x, b);
      SquareSumAppend(a + [x], b, values);
      SquareSumAppend(a, [x], values);
      SquareSumAppend(a, b, values);
      PyramidStep(n);
      TimesAre(n, n);
    }
  }

  lemma OthersAreSmaller(values: seq<real>, m: nat)
    requires NoTies(values) && m < |values| && forall i :: 0 <= i < |values| ==> values[i] <= values[m]
    ensures var a, b := values[..m], values[m + 1..];
            && NoTies(a + b) && (forall v :: v in a ==> v < values[m]) && (forall v :: v in b ==> v < values[m])
            && forall v :: v in a + b ==> v < values[m]
  {
    var a, b := values[..m], values[m + 1..];
    assert forall i :: 0 <= i < |b| ==> b[i] == values[m + 1 + i];
  }

  lemma NoSquares()
    ensures SquareSum([], []) == 0.0 && Pyramid(0.0) == 0.0
  {
  }

  lemma LargestTotal(a: seq<real>, x: real, b: seq<real>)
    requires (forall v :: v in a ==> v < x) && forall v :: v in b ==> v < x
    ensures TotalScore(x, a + [x] + b) == |a| as real + |b| as real + 0.5
  {
    OwnScore(x);
    hide TotalScore;
    ScoreAppend(x, a + [x], b);
    ScoreAppend(x, a, [x]);
    LargestScore(x, a);
    LargestScore(x, b);
  }

  lemma LargestRank(a: seq<real>, x: real, b: seq<real>)
    requires (forall v :: v in a ==> v < x) && forall v :: v in b ==> v < x
    ensures var n := |a| as real + |b| as real + 1.0; SquareSum([x], a + [x] + b) == Times(n, n)
  {
    hide TotalScore, Times, SquareSum;
    LargestTotal(a, x, b);
    OneSquare(x, a + [x] + b);
  }

  lemma OwnScore(x: real)
    ensures TotalScore(x, [x]) == 0.5
  {
    assert [x][1..] == [];
  }

  lemma OneSquare(x: real, others: seq<real>)
    ensures var rank := 0.5 + TotalScore(x, others); SquareSum([x], others) == Times(rank, rank)
  {
    hide Times, TotalScore;
    assert [x][1..] == [];
  }

  // ---------------------------------------------------------------------------------------
  // The classical formula
  // ---------------------------------------------------------------------------------------

  lemma {:induction false} DifferencesExpand(a: seq<real>, b: seq<real>)
    requires |a| == |b|
    ensures Sum(SquaredDifferences(a, b)) ==
            Sum(Products(a, a)) - 2.0 * Sum(Products(a, b)) + Sum(Products(b, b))
  {
    if a != [] {
      hide Times;
      ProductsTail(a, a);
      ProductsTail(a, b);
      ProductsTail(b, b);
      DifferencesTail(a, b);
      DifferencesExpand(a[1..], b[1..]);
      SquareOfDifference(a[0], b[0]);
    }
  }

  lemma DifferencesTail(a: seq<real>, b: seq<real>)
    requires |a| == |b| > 0
    ensures SquaredDifferences(a, b)[1..] == SquaredDifferences(a[1..], b[1..])
    ensures SquaredDifferences(a, b)[0] == Times(a[0] - b[0], a[0] - b[0])
  {
    hide Times;
  }

  lemma SquareOfDifference(x: real, y: real)
    ensures Times(x - y, x - y) == Times(x, x) - 2.0 * Times(x, y) + Times(y, y)
  {
  }

  /** Sum and sum of squares of the ranks of values without ties. */
  lemma RankSums(values: seq<real>)
    requires NoTies(values)
    ensures var n, ranks := |values| as real, Ranks(values);
            Sum(ranks) == n * (n + 1.0) / 2.0 && 6.0 * Sum(Products(ranks, ranks)) == Pyramid(n)
  {
    RanksSum(values);
    SquaresWithoutTies(values);
    hide Times, TotalScore, Pyramid;
    RanksSquared(values, values, Ranks(values));
  }

  /** The variance of n different ranks, and what is left of it after the squared differences. */
  lemma ClassicalAlgebra(n: real, a: real, q: real, p: real, e: real)
    requires a == n * (n + 1.0) / 2.0 && 6.0 * q == Pyramid(n) && e == 2.0 * q - 2.0 * p
    ensures 12.0 * (n * q - a * a) == n * (n * (n * n - 1.0))
    ensures 12.0 * (n * p - a * a) == n * (n * (n * n - 1.0) - 6.0 * e)
  {
    var sq := n * n;
    var cube := sq * n;
    assert Pyramid(n) == 2.0 * cube + 3.0 * sq + n;
    assert a + a == sq + n;
    assert (a + a) * (a + a) == 4.0 * (a * a);
    assert (sq + n) * (sq + n) == sq * sq + 2.0 * cube + sq;
    assert n * (6.0 * q) == 6.0 * (n * q);
    assert n * (2.0 * cube + 3.0 * sq + n) == 2.0 * (sq * sq) + 3.0 * cube + sq;
    assert n * (n * (sq - 1.0)) == sq * sq - sq;
    assert n * (n * (sq - 1.0) - 6.0 * e) == n * (n * (sq - 1.0)) - 6.0 * (n * e);
    assert n * e == 2.0 * (n * q) - 2.0 * (n * p);
  }

  /** n times n squared less one. */
  function Cubic(n: real): real {
    n * (n * n - 1.0)
  }

  lemma CovariancesWithoutTies(predicted: seq<real>, observed: seq<real>)
    requires |predicted| == |observed| && NoTies(predicted) && NoTies(observed)
    ensures var r, s, n := Ranks(predicted), Ranks(observed), |predicted| as real;
            && Covariance(s, s) == Covariance(r, r) && 12.0 * Covariance(r, r) == Times(n, Cubic(n))
            && 12.0 * Covariance(r, s) == Times(n, Cubic(n) - 6.0 * Sum(SquaredDifferences(r, s)))
  {
    hide Ranks, Sum, Products, SquaredDifferences, Pyramid, NoTies;
    var r, s, n := Ranks(predicted), Ranks(observed), |predicted| as real;
    RankSums(predicted);
    RankSums(observed);
    DifferencesExpand(r, s);
    ClassicalAlgebra(n, Sum(r), Sum(Products(r, r)), Sum(Products(r, s)), Sum(SquaredDifferences(r, s)));
  }

  lemma SolveForRho(rho: real, v: real, cov: real, n: real, e: real)
    requires Times(rho, v) == cov && 12.0 * v == Times(n, Cubic(n)) && 12.0 * cov == Times(n, Cubic(n) - 6.0 * e)
    requires n >= 2.0
    ensures rho == 1.0 - 6.0 * e / Cubic(n)
  {
    AtLeastTwo(n);
    var k := Cubic(n);
    hide Cubic;
    assert n * (rho * k) == rho * (n * k);
    assert rho * (12.0 * v) == 12.0 * (rho * v);
    assert n * (rho * k) == n * (k - 6.0 * e);
    CancelOnLeft(n, rho * k, k - 6.0 * e);
    assert k * (1.0 - rho) == 6.0 * e;
    QuotientUnique(6.0 * e, k, 1.0 - rho);
  }

  lemma CancelOnLeft(n: real, a: real, b: real)
    requires n > 0.0 && n * a == n * b
    ensures a == b
  {
    ScaleKeepsOrder(n, a, b);
    ScaleKeepsOrder(n, b, a);
  }

  lemma RootOfSquare(v: real, sqrt: real -> real)
    requires IsSquareRoot(sqrt) && v >= 0.0
    ensures sqrt(Times(v, v)) == v
  {
    var squared := Times(v, v);
    NonNegativeProduct(v, v);
    assert sqrt(squared) * sqrt(squared) == squared;
    EqualSquares(sqrt(squared), v);
  }

  /**
   Without ties the coefficient is one less six times the squared rank differences over n times n squared less one.
   */
  lemma SpearmanWithoutTies(predicted: seq<real>, observed: seq<real>, sqrt: real -> real)
    requires |predicted| == |observed| && |predicted| >= 2 && IsSquareRoot(sqrt)
    requires NoTies(predicted) && NoTies(observed)
    ensures var n := |predicted| as real;
            var e := Sum(SquaredDifferences(Ranks(predicted), Ranks(observed)));
            SpearmanRankCorrelation(predicted, observed, sqrt) == Ok(Some(1.0 - 6.0 * e / Cubic(n)))
  {
    hide Ranks, IsSquareRoot, SpearmanRankCorrelation, Sum, SquaredDifferences, Covariance, Times, Cubic;
    assert predicted[0] != predicted[1] && observed[0] != observed[1];
    SpearmanIsMissing(predicted, observed, sqrt);
    SpearmanIsRefused(predicted, observed, sqrt);
    SpearmanIsCovariance(predicted, observed, sqrt);
    CovariancesWithoutTies(predicted, observed);
    var r, s := Ranks(predicted), Ranks(observed);
    RootOfSquare(Covariance(r, r), sqrt);
    SolveForRho(SpearmanRankCorrelation(predicted, observed, sqrt).value.value, Covariance(r, r), Covariance(r, s),
                |predicted| as real, Sum(SquaredDifferences(r, s)));
  }

  lemma TimesAre(x: real, y: real)
    ensures Times(x, y) == x * y
  {
  }

  lemma AtLeastTwo(n: real)
    requires n >= 2.0
    ensures Cubic(n) > 0.0
  {
    ScaleWeakly(n, 2.0, n);
    PositiveProduct(n, n * n - 1.0);
  }

  /** The coefficient is refused exactly for lists of different length. */
  lemma SpearmanIsRefused(predicted: seq<real>, observed: seq<real>, sqrt: real -> real)
    ensures SpearmanRankCorrelation(predicted, observed, sqrt).Error? <==> |predicted| != |observed|
  {
    hide Ranks, Centered, Dot, Denominator;
  }
}
