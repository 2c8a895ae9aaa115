/**
 Spearman rank correlation (`spearman_rank_correlation` in backend/scripts/run_eval.py).
 The square root of the denominator is a parameter with its defining property.
 */
module RankCorrelation {
  import opened AverageRanks
  import opened Outcomes
  import opened RealAlgebra

  function Mean(values: seq<real>): real
    requires |values| > 0
  {
    Sum(values) / |values| as real
  }

  function Centered(values: seq<real>): (r: seq<real>)
    requires |values| > 0
    ensures |r| == |values| && forall i :: 0 <= i < |r| ==> r[i] == values[i] - Mean(values)
  {
    seq(|values|, i requires 0 <= i < |values| => values[i] - Mean(values))
  }

  function Dot(a: seq<real>, b: seq<real>): real
    requires |a| == |b|
  {
    if a == [] then 0.0 else a[0] * b[0] + Dot(a[1..], b[1..])
  }

  ghost predicate IsSquareRoot(sqrt: real -> real) {
    forall x: real :: x >= 0.0 ==> sqrt(x) >= 0.0 && sqrt(x) * sqrt(x) == x
  }

  function Denominator(left: seq<real>, right: seq<real>, sqrt: real -> real): real {
    sqrt(Dot(left, left) * Dot(right, right))
  }

  function SpearmanRankCorrelation(predicted: seq<real>, observed: seq<real>, sqrt: real -> real)
    : Result<Option<real>>
  {
    if |predicted| != |observed| then Error("predicted and observed lengths differ")
    else if |predicted| < 2 then Ok(None)
    else
      var left, right := Centered(Ranks(predicted)), Centered(Ranks(observed));
      var numerator := Dot(left, right);
      var denominator := Denominator(left, right, sqrt);
      Ok(if denominator == 0.0 then None else Some(numerator / denominator))
  }

  // ---------------------------------------------------------------------------------------
  // Inner products
  // ---------------------------------------------------------------------------------------

  lemma {:induction false} DotSymmetric(a: seq<real>, b: seq<real>)
    requires |a| == |b|
    ensures Dot(a, b) == Dot(b, a)
  {
    if a != [] { DotSymmetric(a[1..], b[1..]); }
  }

  lemma {:induction false} DotOfSelf(a: seq<real>)
    ensures Dot(a, a) >= 0.0
    ensures Dot(a, a) == 0.0 <==> forall i :: 0 <= i < |a| ==> a[i] == 0.0
  {
    if a != [] {
      DotOfSelf(a[1..]);
      SquareSign(a[0]);
      assert Dot(a, a) == a[0] * a[0] + Dot(a[1..], a[1..]);
      if Dot(a[1..], a[1..]) == 0.0 && a[0] == 0.0 {
        forall i | 0 <= i < |a|
          ensures a[i] == 0.0
        {
          assert i > 0 ==> a[1..][i - 1] == a[i];
        }
      }
      if forall i :: 0 <= i < |a| ==> a[i] == 0.0 {
        assert forall i :: 0 <= i < |a[1..]| ==> a[1..][i] == a[i + 1];
      }
    }
  }

  lemma {:induction false} DotOfScaled(a: seq<real>, b: seq<real>, k: real)
    requires |a| == |b| && forall i :: 0 <= i < |a| ==> b[i] == k * a[i]
    ensures Dot(a, b) == k * Dot(a, a)
  {
    if a != [] {
      assert forall i :: 0 <= i < |a[1..]| ==> b[1..][i] == b[i + 1] && a[1..][i] == a[i + 1];
      DotOfScaled(a[1..], b[1..], k);
      ScaledTerm(k, a[0], Dot(a[1..], a[1..]));
    }
  }

  lemma ScaledTerm(k: real, x: real, d: real)
    ensures x * (k * x) + k * d == k * (x * x + d)
  {
    Distribute(k, x * x, d);
    Associate(x, k, x);
    Associate(k, x, x);
  }

  ghost function Mix(x: real, y: real, s: real, t: real): real {
    s * x - t * y
  }

  /** The combination `s a - t b`. */
  ghost function Combine(a: seq<real>, b: seq<real>, s: real, t: real): (c: seq<real>)
    requires |a| == |b|
    ensures |c| == |a| && forall i :: 0 <= i < |a| ==> c[i] == Mix(a[i], b[i], s, t)
  {
    seq(|a|, i requires 0 <= i < |a| => Mix(a[i], b[i], s, t))
  }

  ghost function Expanded(aa: real, ab: real, bb: real, s: real, t: real): real {
    s * s * aa - 2.0 * (s * t * ab) + t * t * bb
  }

  lemma {:induction false} DotOfCombination(a: seq<real>, b: seq<real>, s: real, t: real)
    requires |a| == |b|
    ensures var c := Combine(a, b, s, t);
            Dot(c, c) == Expanded(Dot(a, a), Dot(a, b), Dot(b, b), s, t)
  {
    if a != [] {
      hide Mix, Expanded;
      var c := Combine(a, b, s, t);
      assert c[1..] == Combine(a[1..], b[1..], s, t);
      DotOfCombination(a[1..], b[1..], s, t);
      SquareExpands(a[0], b[0], s, t);
      ExpandedAdds(a[0] * a[0], a[0] * b[0], b[0] * b[0],
                   Dot(a[1..], a[1..]), Dot(a[1..], b[1..]), Dot(b[1..], b[1..]), s, t);
    }
  }

  lemma SquareExpands(x: real, y: real, s: real, t: real)
    ensures Mix(x, y, s, t) * Mix(x, y, s, t) == Expanded(x * x, x * y, y * y, s, t)
  {
    var u, v := s * x, t * y;
    assert (u - v) * (u - v) == u * u - 2.0 * (u * v) + v * v;
    assert u * u == s * s * (x * x);
    assert u * v == s * t * (x * y);
    assert v * v == t * t * (y * y);
  }

  lemma ExpandedAdds(xx: real, xy: real, yy: real, aa: real, ab: real, bb: real, s: real, t: real)
    ensures Expanded(xx, xy, yy, s, t) + Expanded(aa, ab, bb, s, t) == Expanded(xx + aa, xy + ab, yy + bb, s, t)
  {
    var ss, st, tt := s * s, s * t, t * t;
    assert ss * (xx + aa) == ss * xx + ss * aa;
    assert st * (xy + ab) == st * xy + st * ab;
    assert tt * (yy + bb) == tt * yy + tt * bb;
  }

  /** With `s = b.b` and `t = a.b` the expansion is `b.b` times the Cauchy-Schwarz gap. */
  lemma GapExpansion(aa: real, ab: real, bb: real)
    ensures Expanded(aa, ab, bb, bb, ab) == bb * (aa * bb - ab * ab)
  {
    assert bb * bb * aa == bb * (aa * bb);
    assert bb * ab * ab == bb * (ab * ab);
    assert ab * ab * bb == bb * (ab * ab);
    assert bb * (aa * bb - ab * ab) == bb * (aa * bb) - bb * (ab * ab);
  }

  /** Cauchy-Schwarz, with the case of equality. */
  lemma CauchySchwarz(a: seq<real>, b: seq<real>)
    requires |a| == |b|
    ensures Dot(a, b) * Dot(a, b) <= Dot(a, a) * Dot(b, b)
    ensures Dot(a, b) * Dot(a, b) == Dot(a, a) * Dot(b, b) && Dot(b, b) > 0.0 ==>
              forall i :: 0 <= i < |a| ==> Dot(b, b) * a[i] == Dot(a, b) * b[i]
  {
    hide Dot;
    DotOfSelf(b);
    if Dot(b, b) == 0.0 {
      ZeroDot(a, b);
      assert Dot(a, a) * 0.0 == 0.0;
    } else {
      CauchySchwarzGap(a, b, Dot(a, a), Dot(a, b), Dot(b, b));
    }
  }

  lemma CauchySchwarzGap(a: seq<real>, b: seq<real>, aa: real, ab: real, bb: real)
    requires |a| == |b| && aa == Dot(a, a) && ab == Dot(a, b) && bb == Dot(b, b) && bb > 0.0
    ensures ab * ab <= aa * bb
    ensures ab * ab == aa * bb ==> forall i :: 0 <= i < |a| ==> bb * a[i] == ab * b[i]
  {
    hide Dot, Expanded, Mix;
    var c := Combine(a, b, bb, ab);
    DotOfCombination(a, b, bb, ab);
    GapExpansion(aa, ab, bb);
    DotOfSelf(c);
    GapSign(bb, aa * bb - ab * ab);
    if ab * ab == aa * bb {
      forall i | 0 <= i < |a|
        ensures bb * a[i] == ab * b[i]
      {
        ZeroMix(a[i], b[i], bb, ab);
      }
    }
  }

  lemma GapSign(k: real, gap: real)
    requires k > 0.0
    ensures k * gap >= 0.0 ==> gap >= 0.0
    ensures gap == 0.0 ==> k * gap == 0.0
  {
    ScaleKeepsOrder(k, gap, 0.0);
    ScaleKeepsOrder(k, 0.0, gap);
    ZeroFactor(k, 0.0);
  }

  lemma ZeroMix(x: real, y: real, s: real, t: real)
    ensures Mix(x, y, s, t) == 0.0 ==> s * x == t * y
  {
  }

  lemma {:induction false} ZeroDot(a: seq<real>, b: seq<real>)
    requires |a| == |b| && forall i :: 0 <= i < |b| ==> b[i] == 0.0
    ensures Dot(a, b) == 0.0
  {
    if a != [] {
      assert forall i :: 0 <= i < |b[1..]| ==> b[1..][i] == b[i + 1];
      ZeroDot(a[1..], b[1..]);
    }
  }

  // ---------------------------------------------------------------------------------------
  // The coefficient
  // ---------------------------------------------------------------------------------------

  ghost predicate AllTied(values: seq<real>) {
    forall i, j :: 0 <= i < |values| && 0 <= j < |values| ==> values[i] == values[j]
  }

  lemma {:induction false} SumOfConstant(values: seq<real>, k: real)
    requires forall i :: 0 <= i < |values| ==> values[i] == k
    ensures Sum(values) == k * |values| as real
  {
    if values != [] {
      assert forall i :: 0 <= i < |values[1..]| ==> values[1..][i] == values[i + 1];
      SumOfConstant(values[1..], k);
      var m := |values[1..]| as real;
      assert k * (m + 1.0) == k * m + k;
    }
  }

  /** The centered ranks vanish exactly when all values are tied. */
  lemma SpreadOfRanks(values: seq<real>)
    requires |values| > 0
    ensures Dot(Centered(Ranks(values)), Centered(Ranks(values))) == 0.0 <==> AllTied(values)
  {
    var ranks := Ranks(values);
    var centered := Centered(ranks);
    DotOfSelf(centered);
    RanksOrderValues(values);
    hide Dot, Mean, Rank;
    if Dot(centered, centered) == 0.0 {
      forall i, j | 0 <= i < |values| && 0 <= j < |values|
        ensures values[i] == values[j]
      {
        assert ranks[i] == Mean(ranks) == ranks[j];
      }
    }
    if AllTied(values) {
      forall i | 0 <= i < |ranks|
        ensures ranks[i] == ranks[0]
      {
        assert !(values[i] < values[0]) && !(values[0] < values[i]);
      }
      MeanOfConstant(ranks, ranks[0]);
    }
  }

  lemma MeanOfConstant(values: seq<real>, k: real)
    requires |values| > 0 && forall i :: 0 <= i < |values| ==> values[i] == k
    ensures Mean(values) == k
  {
    SumOfConstant(values, k);
  }

  /** The three inner products and the denominator, as numbers. */
  ghost predicate Coefficients(n: real, ll: real, rr: real, d: real) {
    ll >= 0.0 && rr >= 0.0 && d >= 0.0 && d * d == ll * rr && n * n <= ll * rr
  }

  lemma CoefficientRange(n: real, ll: real, rr: real, d: real)
    requires Coefficients(n, ll, rr, d)
    ensures -d <= n <= d && ll >= 0.0 && rr >= 0.0
    ensures d == 0.0 <==> ll == 0.0 || rr == 0.0
  {
    SquareOrder(n, d);
    SquareSign(d);
    NonNegativeProduct(ll, rr);
  }

  lemma DenominatorSquared(left: seq<real>, right: seq<real>, sqrt: real -> real)
    requires IsSquareRoot(sqrt)
    ensures var d := Denominator(left, right, sqrt);
            d >= 0.0 && d * d == Dot(left, left) * Dot(right, right)
  {
    hide Dot;
    var product := Dot(left, left) * Dot(right, right);
    DotOfSelf(left);
    DotOfSelf(right);
    NonNegativeProduct(Dot(left, left), Dot(right, right));
    assert product >= 0.0;
  }

  /** The coefficient is missing exactly when there are fewer than two values or one side is all tied. */
  lemma SpearmanIsMissing(predicted: seq<real>, observed: seq<real>, sqrt: real -> real)
    requires |predicted| == |observed| && IsSquareRoot(sqrt)
    ensures SpearmanRankCorrelation(predicted, observed, sqrt) == Ok(None) <==>
            |predicted| < 2 || AllTied(predicted) || AllTied(observed)
  {
    hide Dot, Ranks, Centered, Mean, Rank, IsSquareRoot, Coefficients, AllTied, Denominator;
    if |predicted| >= 2 {
      var left, right := Centered(Ranks(predicted)), Centered(Ranks(observed));
      SpreadOfRanks(predicted);
      SpreadOfRanks(observed);
      CoefficientsOf(left, right, sqrt);
      CoefficientRange(Dot(left, right), Dot(left, left), Dot(right, right), Denominator(left, right, sqrt));
    }
  }

  lemma CoefficientsOf(left: seq<real>, right: seq<real>, sqrt: real -> real)
    requires |left| == |right| && IsSquareRoot(sqrt)
    ensures Coefficients(Dot(left, right), Dot(left, left), Dot(right, right), Denominator(left, right, sqrt))
  {
    hide Dot, IsSquareRoot, Denominator;
    DotOfSelf(left);
    DotOfSelf(right);
    CauchySchwarz(left, right);
    DenominatorSquared(left, right, sqrt);
  }

  /**
   When there is a coefficient it lies between -1 and 1; it is 1 exactly when the two sides
   order the cafes alike, ties included, and -1 exactly when they order them in reverse.
   */
  lemma SpearmanRange(predicted: seq<real>, observed: seq<real>, sqrt: real -> real)
    requires |predicted| == |observed| && IsSquareRoot(sqrt)
    requires SpearmanRankCorrelation(predicted, observed, sqrt).Ok?
    requires SpearmanRankCorrelation(predicted, observed, sqrt).value.Some?
    ensures var rho := SpearmanRankCorrelation(predicted, observed, sqrt).value.value;
            && -1.0 <= rho <= 1.0
            && (rho == 1.0 <==> SameOrder(predicted, observed))
            && (rho == -1.0 <==> OppositeOrder(predicted, observed))
  {
    hide Dot, Ranks, Centered, Mean, Rank, IsSquareRoot, SameOrder, OppositeOrder, Coefficients, Denominator;
    var left, right := Centered(Ranks(predicted)), Centered(Ranks(observed));
    var n, ll, rr := Dot(left, right), Dot(left, left), Dot(right, right);
    var d := Denominator(left, right, sqrt);
    CoefficientsOf(left, right, sqrt);
    CoefficientRange(n, ll, rr, d);
    assert d != 0.0;
    QuotientRange(n, d);
    if n == d || n == -d { ExtremeMeansProportional(predicted, observed, n, ll, rr, d); }
    if SameOrder(predicted, observed) { AlikeGivesOne(predicted, observed, n, ll, rr, d); }
    if OppositeOrder(predicted, observed) { ReverseGivesMinusOne(predicted, observed, n, ll, rr, d); }
  }

  /** The inner products of two lists of ranks. */
  ghost predicate AreProducts(predicted: seq<real>, observed: seq<real>, n: real, ll: real, rr: real)
    requires |predicted| == |observed| && |predicted| > 0
  {
    var left, right := Centered(Ranks(predicted)), Centered(Ranks(observed));
    n == Dot(left, right) && ll == Dot(left, left) && rr == Dot(right, right)
  }

  lemma ExtremeNumbers(n: real, ll: real, rr: real, d: real)
    requires Coefficients(n, ll, rr, d) && d != 0.0 && (n == d || n == -d)
    ensures n * n == ll * rr && rr > 0.0 && n != 0.0
  {
    CoefficientRange(n, ll, rr, d);
    NegateBoth(d, d);
  }

  /** At an extreme the centered ranks are proportional, so the orders agree or are reversed. */
  lemma ExtremeMeansProportional(predicted: seq<real>, observed: seq<real>, n: real, ll: real, rr: real, d: real)
    requires |predicted| == |observed| && |predicted| > 0 && AreProducts(predicted, observed, n, ll, rr)
    requires Coefficients(n, ll, rr, d) && d != 0.0 && (n == d || n == -d)
    ensures n > 0.0 ==> SameOrder(predicted, observed)
    ensures n < 0.0 ==> OppositeOrder(predicted, observed)
  {
    hide Dot, Ranks, Mean, Rank, Coefficients;
    var left, right := Centered(Ranks(predicted)), Centered(Ranks(observed));
    ExtremeNumbers(n, ll, rr, d);
    CauchySchwarz(left, right);
    assert forall i :: 0 <= i < |left| ==> rr * left[i] == n * right[i];
    Proportional(predicted, observed, left, right, n, rr);
  }

  lemma Proportional(
      predicted: seq<real>, observed: seq<real>, left: seq<real>, right: seq<real>, n: real, rr: real)
    requires |predicted| == |observed| && |predicted| > 0
    requires left == Centered(Ranks(predicted)) && right == Centered(Ranks(observed))
    requires rr > 0.0 && forall i :: 0 <= i < |left| ==> rr * left[i] == n * right[i]
    ensures n > 0.0 ==> SameOrder(predicted, observed)
    ensures n < 0.0 ==> OppositeOrder(predicted, observed)
  {
    RanksOrderValues(predicted);
    RanksOrderValues(observed);
    hide Ranks, Rank, Mean;
    forall i, j | 0 <= i < |predicted| && 0 <= j < |predicted|
      ensures n > 0.0 ==> (predicted[i] < predicted[j] <==> observed[i] < observed[j])
      ensures n < 0.0 ==> (predicted[i] < predicted[j] <==> observed[j] < observed[i])
    {
      ProportionalOrder(rr, n, left[i], left[j], right[i], right[j]);
      CenteredOrder(Ranks(predicted), i, j);
      CenteredOrder(Ranks(observed), i, j);
      CenteredOrder(Ranks(observed), j, i);
    }
  }

  lemma CenteredOrder(values: seq<real>, i: nat, j: nat)
    requires i < |values| && j < |values|
    ensures Centered(values)[i] < Centered(values)[j] <==> values[i] < values[j]
  {
    hide Mean;
  }

  lemma ProportionalOrder(k: real, n: real, a: real, b: real, c: real, d: real)
    requires k > 0.0 && k * a == n * c && k * b == n * d
    ensures n > 0.0 ==> (a < b <==> c < d)
    ensures n < 0.0 ==> (a < b <==> d < c)
  {
    ScaleKeepsOrder(k, a, b);
    if n > 0.0 {
      ScaleKeepsOrder(n, c, d);
    } else if n < 0.0 {
      ScaleKeepsOrder(-n, d, c);
      NegateOne(n, c);
      NegateOne(n, d);
    }
  }

  lemma AlikeGivesOne(predicted: seq<real>, observed: seq<real>, n: real, ll: real, rr: real, d: real)
    requires |predicted| == |observed| && |predicted| > 0 && SameOrder(predicted, observed)
    requires AreProducts(predicted, observed, n, ll, rr) && Coefficients(n, ll, rr, d)
    ensures n == d
  {
    hide Dot, Ranks, Centered, Rank, Mean;
    RanksAreOrder(predicted, observed);
    EqualSquares(d, ll);
  }

  lemma ReverseGivesMinusOne(predicted: seq<real>, observed: seq<real>, n: real, ll: real, rr: real, d: real)
    requires |predicted| == |observed| && |predicted| > 0 && OppositeOrder(predicted, observed)
    requires AreProducts(predicted, observed, n, ll, rr) && Coefficients(n, ll, rr, d)
    ensures n == -d
  {
    hide Dot, Ranks, Centered, Rank, Mean;
    var left, right := Centered(Ranks(predicted)), Centered(Ranks(observed));
    ReversedRanks(predicted, observed);
    DotOfScaled(left, right, -1.0);
    DotOfScaled(right, left, -1.0);
    DotSymmetric(left, right);
    NegateOne(1.0, ll);
    NegateOne(1.0, rr);
    assert n == -ll == -rr;
    EqualSquares(d, ll);
  }

  /** Opposite orders have opposite centered ranks. */
  lemma ReversedRanks(predicted: seq<real>, observed: seq<real>)
    requires |predicted| == |observed| && |predicted| > 0 && OppositeOrder(predicted, observed)
    ensures var left, right := Centered(Ranks(predicted)), Centered(Ranks(observed));
            forall i :: 0 <= i < |left| ==> right[i] == -1.0 * left[i] && left[i] == -1.0 * right[i]
  {
    OppositeRanks(predicted, observed);
    RanksSum(predicted);
    RanksSum(observed);
    hide Rank, Sum, Mean;
    RankMean(Ranks(predicted));
    RankMean(Ranks(observed));
  }

  lemma RankMean(ranks: seq<real>)
    requires |ranks| > 0 && Sum(ranks) == |ranks| as real * (|ranks| + 1) as real / 2.0
    ensures Mean(ranks) == (|ranks| + 1) as real / 2.0
  {
    var n, half := |ranks| as real, (|ranks| + 1) as real / 2.0;
    assert n * (|ranks| + 1) as real / 2.0 == n * half;
    assert n * half / n == half;
  }

  /** The coefficient does not depend on which side is called predicted. */
  lemma SpearmanSymmetric(predicted: seq<real>, observed: seq<real>, sqrt: real -> real)
    requires |predicted| == |observed|
    ensures SpearmanRankCorrelation(predicted, observed, sqrt) == SpearmanRankCorrelation(observed, predicted, sqrt)
  {
    if |predicted| >= 2 {
      var left, right := Centered(Ranks(predicted)), Centered(Ranks(observed));
      DotSymmetric(left, right);
      assert Dot(left, left) * Dot(right, right) == Dot(right, right) * Dot(left, left);
    }
  }
}
