/**
 The premium calculator (premi.py): its three-stage pipeline over exact reals.

   Stage 1  E[Wt(d,u)] and StdDev[Wt(d,u)] from the survival factor a, n, d, u, q, p, alpha
   Stage 2  the risk-loaded rate PI = ((1 + rho + eta) E + StdDev) / ((1 - QT) n), or an error
   Stage 3  the total premium PI * n * P

 The survival factor a = exp(-lambda * t) and the square root are not modelled: a is an
 input, and the square root is a parameter `sqrt` required only to return the
 non-negative root of a non-negative argument.
 */
module Premium {
  import opened Combinatorics
  import opened RealSums
  import opened BinomialDistribution

  // ---------------------------------------------------------------- Stage 1 sums

  /** One term of the window sum: ell^m C(n, d + ell) q^(d+ell) p^(n-d-ell), skipped (0) when d + ell > n. */
  function WindowTerm(n: nat, d: nat, ell: nat, q: real, p: real, m: nat): real
  {
    if d + ell > n then 0.0 else Pow(ell as real, m) * BinomialTerm(n, d + ell, q, p)
  }

  /** The window terms for ell, ell + 1, ..., top (empty when ell > top). */
  function WindowSum(n: nat, d: nat, ell: nat, top: int, q: real, p: real, m: nat): real
    decreases top - ell
  {
    if ell > top then 0.0 else WindowTerm(n, d, ell, q, p, m) + WindowSum(n, d, ell + 1, top, q, p, m)
  }

  /** The ell-sum of Stage 1 for ell = 1..(u - 1) - d, taken only when that bound is at least 1. */
  function EllSum(n: nat, d: nat, u: int, q: real, p: real, m: nat): real
  {
    var top := (u - 1) - d;
    if top >= 1 then WindowSum(n, d, 1, top, q, p, m) else 0.0
  }

  /** The binomial terms for i, i + 1, ..., n. */
  function TailSum(n: nat, i: nat, q: real, p: real): real
    decreases n + 1 - i
  {
    if i > n then 0.0 else BinomialTerm(n, i, q, p) + TailSum(n, i + 1, q, p)
  }

  /** The upper-tail sum of Stage 1: the terms for i = u..n when u <= n, and 0 otherwise. */
  function UpperTail(n: nat, u: nat, q: real, p: real): real
  {
    if u <= n then TailSum(n, u, q, p) else 0.0
  }

  /** Once d + ell exceeds n every remaining window term is skipped, whatever the upper bound. */
  lemma {:induction false} WindowSumPastN(n: nat, d: nat, ell: nat, top: int, q: real, p: real, m: nat)
    requires d + ell > n
    ensures WindowSum(n, d, ell, top, q, p, m) == 0.0
    decreases top - ell
  {
    if ell <= top {
      WindowSumPastN(n, d, ell + 1, top, q, p, m);
    }
  }

  /** With p = 1 - q, the tail sum from i is the sum of the binomial(n, q) vector from index i on. */
  lemma {:induction false} TailSumIsPmfSuffix(n: nat, i: nat, q: real)
    requires i <= n + 1
    ensures TailSum(n, i, q, 1.0 - q) == Sum(BinomialPmf(n, q)[i..])
    decreases n + 1 - i
  {
    var v := BinomialPmf(n, q);
    if i <= n {
      TailSumIsPmfSuffix(n, i + 1, q);
      assert v[i..][1..] == v[i + 1..];
    }
  }

  /** The upper tail is 0 when u > n, and otherwise the binomial(n, q) mass at u, u + 1, ..., n. */
  lemma UpperTailIsPmfSuffix(n: nat, u: nat, q: real)
    ensures u > n ==> UpperTail(n, u, q, 1.0 - q) == 0.0
    ensures u <= n ==> UpperTail(n, u, q, 1.0 - q) == Sum(BinomialPmf(n, q)[u..])
  {
    if u <= n {
      TailSumIsPmfSuffix(n, u, q);
    }
  }

  /** For q in [0, 1] and p = 1 - q every tail sum is a probability. */
  lemma TailSumBounds(n: nat, i: nat, q: real)
    requires 0.0 <= q <= 1.0
    requires i <= n + 1
    ensures 0.0 <= TailSum(n, i, q, 1.0 - q) <= 1.0
  {
    var v := BinomialPmf(n, q);
    PmfIsDistribution(n, q);
    TailSumIsPmfSuffix(n, i, q);
    NonNegativeSum(v);
    NonNegativeSum(v[i..]);
  }

  /** The window sum of plain weights (m = 0) followed by the tail from u is the tail from d + ell. */
  lemma {:induction false} WindowThenTail(n: nat, d: nat, ell: nat, u: nat, q: real, p: real)
    requires 1 <= ell && d + ell <= u <= n
    ensures WindowSum(n, d, ell, (u - 1) - d, q, p, 0) + TailSum(n, u, q, p) == TailSum(n, d + ell, q, p)
    decreases u - d - ell
  {
    if d + ell < u {
      WindowThenTail(n, d, ell + 1, u, q, p);
      assert WindowTerm(n, d, ell, q, p, 0) == BinomialTerm(n, d + ell, q, p);
    }
  }

  // ---------------------------------------------------------------- Stage 1

  /** The Stage-1 inputs the guards accept: q in [0, 1], n a positive integer, d and u in [0, n]. */
  predicate Stage1Inputs(n: int, d: int, u: int, q: real)
  {
    0.0 <= q <= 1.0 && n >= 1 && 0 <= d <= n && 0 <= u <= n
  }

  /** The outcome of the Stage-1 guards: accepted, or the first error message the chain reports. */
  datatype Stage1Check = Accepted | QOutOfRange | NNotPositive | WindowOutOfRange

  /**
   The guard chain as written: q is checked first, then n, then d and u together. It
   accepts exactly the Stage-1 inputs, and each error names the first guard that fails.
   */
  function Stage1Validation(n: int, d: int, u: int, q: real): (r: Stage1Check)
    ensures r == Accepted <==> Stage1Inputs(n, d, u, q)
    ensures r == QOutOfRange <==> !(0.0 <= q <= 1.0)
    ensures r == NNotPositive ==> 0.0 <= q <= 1.0 && n <= 0
    ensures r == WindowOutOfRange ==> 0.0 <= q <= 1.0 && n >= 1 && !(0 <= d <= n && 0 <= u <= n)
  {
    if !(0.0 <= q <= 1.0) then QOutOfRange
    else if n <= 0 then NNotPositive
    else if !(0 <= d <= n && 0 <= u <= n) then WindowOutOfRange
    else Accepted
  }

  /** E[Wt(d,u)] and E[Wt(d,u)^2] as Stage 1 computes them. */
  datatype Moments = Moments(first: real, second: real)

  /** The weight a T + (1 - a) of the outcomes at or above u, absorbed ones included. */
  function Mass(a: real, tail: real): real
  {
    a * tail + (1.0 - a)
  }

  /** The amount alpha (u - d) paid for an outcome at or above u. */
  function Spread(alpha: real, d: nat, u: nat): real
  {
    alpha * (u - d) as real
  }

  /**
   The moments of the mixture Stage 1 describes: with weight a the window outcomes, whose
   first and second moment sums are s1 and s2, and with weight mass the single payout v.
   */
  function MixtureMoments(a: real, s1: real, s2: real, v: real, mass: real): Moments
  {
    Moments(a * s1 + v * mass, a * s2 + v * v * mass)
  }

  /**
   E[Wt(d,u)] = a S1 + v M and E[Wt(d,u)^2] = a S2 + v^2 M, with S1 and S2 the ell-sums for
   powers 1 and 2, M the mass at or above u and v = alpha (u - d). A window of width 0
   (d == u) has an empty ell-range and a zero spread, so both moments vanish.
   */
  function WindowMoments(a: real, n: nat, d: nat, u: nat, q: real, p: real, alpha: real): (r: Moments)
    ensures d == u ==> r.first == 0.0 && r.second == 0.0
  {
    assert d == u ==> Spread(alpha, d, u) == 0.0;
    MixtureMoments(a, EllSum(n, d, u, q, p, 1), EllSum(n, d, u, q, p, 2), Spread(alpha, d, u), Mass(a, UpperTail(n, u, q, p)))
  }

  /** The mixture moments are the source's formulas, which square alpha and (u - d) separately. */
  lemma MixtureMomentsAsWritten(a: real, s1: real, s2: real, alpha: real, d: nat, u: nat, tail: real)
    ensures MixtureMoments(a, s1, s2, Spread(alpha, d, u), Mass(a, tail))
         == Moments(a * s1 + alpha * (u - d) as real * (a * tail + (1.0 - a)),
                    a * s2 + (alpha * alpha) * ((u - d) * (u - d)) as real * (a * tail + (1.0 - a)))
  {
    SpreadSquared(alpha, d, u);
  }

  /** (alpha (u - d))^2 == alpha^2 (u - d)^2, the square of (u - d) taken over the integers. */
  lemma SpreadSquared(alpha: real, d: nat, u: nat)
    ensures Spread(alpha, d, u) * Spread(alpha, d, u) == (alpha * alpha) * ((u - d) * (u - d)) as real
  {
    var k := (u - d) as real;
    assert ((u - d) * (u - d)) as real == k * k;
    assert (alpha * k) * (alpha * k) == (alpha * alpha) * (k * k);
  }

  /** E[Wt(d,u)] and E[Wt(d,u)^2] written out as Stage 1 writes them. */
  lemma WindowMomentsAsWritten(a: real, n: nat, d: nat, u: nat, q: real, p: real, alpha: real)
    ensures WindowMoments(a, n, d, u, q, p, alpha)
         == Moments(a * EllSum(n, d, u, q, p, 1) + alpha * (u - d) as real * (a * UpperTail(n, u, q, p) + (1.0 - a)),
                    a * EllSum(n, d, u, q, p, 2)
                      + (alpha * alpha) * ((u - d) * (u - d)) as real * (a * UpperTail(n, u, q, p) + (1.0 - a)))
  {
    MixtureMomentsAsWritten(a, EllSum(n, d, u, q, p, 1), EllSum(n, d, u, q, p, 2), alpha, d, u, UpperTail(n, u, q, p));
  }

  function Variance(m: Moments): real
  {
    m.second - m.first * m.first
  }

  /** sqrt returns the non-negative square root of every non-negative real. */
  ghost predicate IsSqrt(sqrt: real -> real)
  {
    forall x :: 0.0 <= x ==> 0.0 <= sqrt(x) && sqrt(x) * sqrt(x) == x
  }

  datatype WindowStats = WindowStats(mean: real, stdDev: real)

  lemma SqrtOfZero(sqrt: real -> real)
    requires IsSqrt(sqrt)
    ensures sqrt(0.0) == 0.0
  {
    var r := sqrt(0.0);
    assert r * r == 0.0;
    ProductZero(r, r);
  }

  /** The square root of |v|, taken the way Stage 1 branches on the sign of v. */
  lemma RootOfAbs(sqrt: real -> real, v: real)
    requires IsSqrt(sqrt)
    ensures var sd := if v < 0.0 then sqrt(Abs(v)) else sqrt(v);
      0.0 <= sd && sd * sd == Abs(v) && (v == 0.0 ==> sd == 0.0)
  {
    SqrtOfZero(sqrt);
  }

  /** A product of reals is 0 exactly when one of its factors is. */
  lemma ProductZero(x: real, y: real)
    ensures x * y == 0.0 <==> x == 0.0 || y == 0.0
  {
  }

  /**
   Stage 1: the mean is E[Wt(d,u)], the standard deviation is the square root of |Var|
   (the negative-variance branch takes the absolute value). When the ell-range is empty
   the mean is alpha (u - d) (a T + (1 - a)), and when d == u both results are 0.
   */
  function WindowedStatistics(a: real, n: int, d: int, u: int, q: real, p: real, alpha: real, sqrt: real -> real): (r: WindowStats)
    requires Stage1Inputs(n, d, u, q)
    requires IsSqrt(sqrt)
    ensures r.mean == WindowMoments(a, n, d, u, q, p, alpha).first
    ensures 0.0 <= r.stdDev && r.stdDev * r.stdDev == Abs(Variance(WindowMoments(a, n, d, u, q, p, alpha)))
    ensures (u - 1) - d < 1 ==> r.mean == alpha * (u - d) as real * (a * UpperTail(n, u, q, p) + (1.0 - a))
    ensures d == u ==> r.mean == 0.0 && r.stdDev == 0.0
  {
    var m := WindowMoments(a, n, d, u, q, p, alpha);
    var v := Variance(m);
    var sd := if v < 0.0 then sqrt(Abs(v)) else sqrt(v);
    RootOfAbs(sqrt, v);
    WindowStats(m.first, sd)
  }

  // ---------------------------------------------------------------- variance is non-negative

  /** (t2 + r2) - 2c (t1 + r1) + c^2 (t0 + r0) splits into the head part and the rest part. */
  lemma QuadSplit(t0: real, t1: real, t2: real, r0: real, r1: real, r2: real, c: real)
    ensures (t2 + r2) - 2.0 * c * (t1 + r1) + c * c * (t0 + r0)
         == (t2 - 2.0 * c * t1 + c * c * t0) + (r2 - 2.0 * c * r1 + c * c * r0)
  {
  }

  /** b x^2 - 2 c b x + c^2 b == b (x - c)^2 >= 0 for b >= 0. */
  lemma QuadTerm(b: real, x: real, c: real)
    requires 0.0 <= b
    ensures (x * (x * 1.0)) * b - 2.0 * c * ((x * 1.0) * b) + c * c * (1.0 * b) >= 0.0
  {
    var e := (x - c) * (x - c);
    assert 0.0 <= e;
    MulNonNegative(b, e);
    assert (x * (x * 1.0)) * b - 2.0 * c * ((x * 1.0) * b) + c * c * (1.0 * b) == b * e;
  }

  /** The quadratic form s2 - 2 c s1 + c^2 s0 of the weights s0, first moments s1 and second moments s2 about c. */
  function Quad(s0: real, s1: real, s2: real, c: real): real
  {
    s2 - 2.0 * c * s1 + c * c * s0
  }

  /** One window term contributes w_ell (ell - c)^2 >= 0 to the quadratic form. */
  lemma WindowTermQuad(n: nat, d: nat, ell: nat, q: real, p: real, c: real)
    requires 0.0 <= q && 0.0 <= p
    ensures Quad(WindowTerm(n, d, ell, q, p, 0), WindowTerm(n, d, ell, q, p, 1), WindowTerm(n, d, ell, q, p, 2), c) >= 0.0
  {
    if d + ell > n {
      assert c * c * 0.0 == 0.0;
    } else {
      var b := BinomialTerm(n, d + ell, q, p);
      BinomialTermNonNegative(n, d + ell, q, p);
      var x := ell as real;
      assert WindowTerm(n, d, ell, q, p, 0) == 1.0 * b;
      assert WindowTerm(n, d, ell, q, p, 1) == (x * 1.0) * b;
      assert WindowTerm(n, d, ell, q, p, 2) == (x * (x * 1.0)) * b;
      QuadTerm(b, x, c);
    }
  }

  /** Sum over the window of w_ell (ell - c)^2 >= 0, written with the m = 0, 1, 2 window sums. */
  lemma {:induction false} WindowQuadNonNegative(n: nat, d: nat, ell: nat, top: int, q: real, p: real, c: real)
    requires 0.0 <= q && 0.0 <= p
    ensures Quad(WindowSum(n, d, ell, top, q, p, 0), WindowSum(n, d, ell, top, q, p, 1),
                 WindowSum(n, d, ell, top, q, p, 2), c) >= 0.0
    decreases top - ell
  {
    if ell > top {
      assert c * c * 0.0 == 0.0;
    } else {
      WindowQuadNonNegative(n, d, ell + 1, top, q, p, c);
      WindowQuadStep(n, d, ell, top, q, p, c);
    }
  }

  /** Adding the term for ell in front of a window with a non-negative quadratic form keeps it non-negative. */
  lemma WindowQuadStep(n: nat, d: nat, ell: nat, top: int, q: real, p: real, c: real)
    requires 0.0 <= q && 0.0 <= p
    requires ell <= top
    requires Quad(WindowSum(n, d, ell + 1, top, q, p, 0), WindowSum(n, d, ell + 1, top, q, p, 1),
                  WindowSum(n, d, ell + 1, top, q, p, 2), c) >= 0.0
    ensures Quad(WindowSum(n, d, ell, top, q, p, 0), WindowSum(n, d, ell, top, q, p, 1),
                 WindowSum(n, d, ell, top, q, p, 2), c) >= 0.0
  {
    WindowTermQuad(n, d, ell, q, p, c);
    QuadStep(WindowTerm(n, d, ell, q, p, 0), WindowTerm(n, d, ell, q, p, 1), WindowTerm(n, d, ell, q, p, 2),
             WindowSum(n, d, ell + 1, top, q, p, 0), WindowSum(n, d, ell + 1, top, q, p, 1),
             WindowSum(n, d, ell + 1, top, q, p, 2),
             WindowSum(n, d, ell, top, q, p, 0), WindowSum(n, d, ell, top, q, p, 1),
             WindowSum(n, d, ell, top, q, p, 2), c);
  }

  /** A non-negative quadratic form of the head plus one of the rest is one of the whole. */
  lemma QuadStep(t0: real, t1: real, t2: real, r0: real, r1: real, r2: real,
                 s0: real, s1: real, s2: real, c: real)
    requires s0 == t0 + r0 && s1 == t1 + r1 && s2 == t2 + r2
    requires Quad(t0, t1, t2, c) >= 0.0
    requires Quad(r0, r1, r2, c) >= 0.0
    ensures Quad(s0, s1, s2, c) >= 0.0
  {
    QuadSplit(t0, t1, t2, r0, r1, r2, c);
  }

  /**
   The polynomial identity behind the variance decomposition: for every e,
   a (S2 - 2 e S1 + e^2 S0) + M (v - e)^2 + (1 - a S0 - M) e^2 == (a S2 + v^2 M) - 2 e (a S1 + v M) + e^2,
   which is the variance when e is the mean a S1 + v M.
   */
  lemma ExpandedVariance(a: real, s0: real, s1: real, s2: real, mass: real, v: real, e: real)
    ensures a * (s2 - 2.0 * e * s1 + e * e * s0) + mass * ((v - e) * (v - e)) + (1.0 - a * s0 - mass) * (e * e)
         == (a * s2 + v * v * mass) - 2.0 * (e * (a * s1 + v * mass)) + e * e
  {
  }

  lemma MeanTimesMean(e: real, x: real)
    requires e == x
    ensures e * x == e * e
  {
  }

  /** With non-negative weights a, M and 1 - a S0 - M, the decomposition is a weighted sum of squares. */
  lemma DecompositionNonNegative(a: real, s0: real, s1: real, s2: real, mass: real, v: real, e: real)
    requires MixtureWeights(a, s0, mass)
    requires s2 - 2.0 * e * s1 + e * e * s0 >= 0.0
    ensures 0.0 <= a * (s2 - 2.0 * e * s1 + e * e * s0) + mass * ((v - e) * (v - e)) + (1.0 - a * s0 - mass) * (e * e)
  {
    SquareNonNegative(v - e);
    SquareNonNegative(e);
    SumOfProductsNonNegative(a, s2 - 2.0 * e * s1 + e * e * s0, mass, (v - e) * (v - e), 1.0 - a * s0 - mass, e * e);
  }

  /** Three non-negative products add up to a non-negative real. */
  lemma SumOfProductsNonNegative(x1: real, y1: real, x2: real, y2: real, x3: real, y3: real)
    requires 0.0 <= x1 && 0.0 <= y1 && 0.0 <= x2 && 0.0 <= y2 && 0.0 <= x3 && 0.0 <= y3
    ensures 0.0 <= x1 * y1 + x2 * y2 + x3 * y3
  {
    MulNonNegative(x1, y1);
    MulNonNegative(x2, y2);
    MulNonNegative(x3, y3);
  }

  lemma SquareNonNegative(x: real)
    ensures 0.0 <= x * x
  {
  }

  /** Under the Stage-1 guards the plain window weights and the upper tail together are at most 1. */
  lemma WindowAndTailAtMostOne(n: nat, d: nat, u: nat, q: real)
    requires Stage1Inputs(n, d, u, q)
    ensures 0.0 <= UpperTail(n, u, q, 1.0 - q)
    ensures EllSum(n, d, u, q, 1.0 - q, 0) + UpperTail(n, u, q, 1.0 - q) <= 1.0
  {
    var p := 1.0 - q;
    TailSumBounds(n, u, q);
    if (u - 1) - d >= 1 {
      WindowThenTail(n, d, 1, u, q, p);
      TailSumBounds(n, d + 1, q);
    }
  }

  /** a, M and 1 - a s0 - M are the non-negative weights of a mixture whose window weight is s0. */
  ghost predicate MixtureWeights(a: real, s0: real, mass: real)
  {
    0.0 <= a && 0.0 <= mass && 0.0 <= 1.0 - a * s0 - mass
  }

  /** The mass M = a T + (1 - a) and the remainder 1 - a s0 - M are non-negative weights. */
  lemma WeightsNonNegative(a: real, s0: real, tail: real)
    requires 0.0 <= a <= 1.0 && 0.0 <= tail && s0 + tail <= 1.0
    ensures MixtureWeights(a, s0, Mass(a, tail))
  {
    MulNonNegative(a, tail);
    MulNonNegative(a, 1.0 - s0 - tail);
  }

  /**
   The variance of a mixture: with weights a, M and 1 - a s0 - M all non-negative, mean
   E = a s1 + v M and second moment a s2 + v^2 M, the variance is a weighted sum of squares,
   hence non-negative as soon as the window's quadratic form s2 - 2 E s1 + E^2 s0 is.
   */
  lemma WeightedSquares(a: real, s0: real, s1: real, s2: real, mass: real, v: real, e: real)
    requires MixtureWeights(a, s0, mass)
    requires e == a * s1 + v * mass
    requires Quad(s0, s1, s2, e) >= 0.0
    ensures 0.0 <= (a * s2 + v * v * mass) - e * e
  {
    assert Quad(s0, s1, s2, e) == s2 - 2.0 * e * s1 + e * e * s0;
    DecompositionNonNegative(a, s0, s1, s2, mass, v, e);
    ExpandedVariance(a, s0, s1, s2, mass, v, e);
    MeanTimesMean(e, a * s1 + v * mass);
  }

  /** WeightedSquares stated for MixtureMoments. */
  lemma MixtureVarianceNonNegative(a: real, s0: real, s1: real, s2: real, v: real, mass: real)
    requires MixtureWeights(a, s0, mass)
    requires Quad(s0, s1, s2, MixtureMoments(a, s1, s2, v, mass).first) >= 0.0
    ensures 0.0 <= Variance(MixtureMoments(a, s1, s2, v, mass))
  {
    WeightedSquares(a, s0, s1, s2, mass, v, a * s1 + v * mass);
  }

  /**
   Over exact reals, with p = 1 - q and a in [0, 1] (that is, lambda * t >= 0), the variance
   Stage 1 computes is never negative: it is a sum of squares weighted by probabilities.
   For such a the absolute value taken before the square root only matters under
   floating-point rounding; `NegativeVarianceAboveOne` shows a > 1 is different.
   */
  lemma VarianceNonNegative(a: real, n: int, d: int, u: int, q: real, alpha: real)
    requires Stage1Inputs(n, d, u, q)
    requires 0.0 <= a <= 1.0
    ensures 0.0 <= Variance(WindowMoments(a, n, d, u, q, 1.0 - q, alpha))
  {
    WindowAndTailAtMostOne(n, d, u, q);
    WeightsNonNegative(a, EllSum(n, d, u, q, 1.0 - q, 0), UpperTail(n, u, q, 1.0 - q));
    EllQuadNonNegative(n, d, u, q, 1.0 - q, WindowMoments(a, n, d, u, q, 1.0 - q, alpha).first);
    MixtureVarianceNonNegative(a, EllSum(n, d, u, q, 1.0 - q, 0), EllSum(n, d, u, q, 1.0 - q, 1),
                               EllSum(n, d, u, q, 1.0 - q, 2), Spread(alpha, d, u),
                               Mass(a, UpperTail(n, u, q, 1.0 - q)));
  }

  /** The quadratic form over the ell-range is non-negative (trivially so when the range is empty). */
  lemma EllQuadNonNegative(n: nat, d: nat, u: int, q: real, p: real, c: real)
    requires 0.0 <= q && 0.0 <= p
    ensures Quad(EllSum(n, d, u, q, p, 0), EllSum(n, d, u, q, p, 1), EllSum(n, d, u, q, p, 2), c) >= 0.0
  {
    if (u - 1) - d >= 1 {
      WindowQuadNonNegative(n, d, 1, (u - 1) - d, q, p, c);
    } else {
      assert c * c * 0.0 == 0.0;
    }
  }

  /** Hence, for a in [0, 1], the Stage-1 standard deviation is the exact square root of the variance. */
  lemma StdDevIsSquareRootOfVariance(a: real, n: int, d: int, u: int, q: real, alpha: real, sqrt: real -> real)
    requires Stage1Inputs(n, d, u, q)
    requires 0.0 <= a <= 1.0
    requires IsSqrt(sqrt)
    ensures var r := WindowedStatistics(a, n, d, u, q, 1.0 - q, alpha, sqrt);
      r.stdDev * r.stdDev == Variance(WindowMoments(a, n, d, u, q, 1.0 - q, alpha))
  {
    VarianceNonNegative(a, n, d, u, q, alpha);
  }

  /**
   The page does not bound lambda or t, so lambda * t < 0 gives a > 1 and the mixture weight
   1 - a turns negative. Then the exact variance can be negative: with n = 1, d = 0, u = 1,
   q = 0, alpha = 1 and a = 2 it is -2, and the standard deviation is the root of 2.
   */
  lemma NegativeVarianceAboveOne(sqrt: real -> real)
    requires IsSqrt(sqrt)
    ensures Variance(WindowMoments(2.0, 1, 0, 1, 0.0, 1.0, 1.0)) == -2.0
    ensures var r := WindowedStatistics(2.0, 1, 0, 1, 0.0, 1.0, 1.0, sqrt);
      r.mean == -1.0 && r.stdDev * r.stdDev == 2.0
  {
    assert EllSum(1, 0, 1, 0.0, 1.0, 1) == 0.0;
    assert EllSum(1, 0, 1, 0.0, 1.0, 2) == 0.0;
    assert UpperTail(1, 1, 0.0, 1.0) == 0.0 by {
      assert TailSum(1, 2, 0.0, 1.0) == 0.0;
    }
  }

  // ---------------------------------------------------------------- Stage 2 and Stage 3

  /** The rate of Stage 2, or the division-by-zero error it reports instead of a number. */
  datatype RateResult = Rate(value: real) | DivisionByZero

  /**
   Stage 2: fails exactly when (1 - QT) n is 0, i.e. when QT == 1 or n == 0; otherwise the
   rate times (1 - QT) n is the loaded expectation (1 + rho + eta) E plus the standard deviation.
   */
  function RiskLoadedRate(rho: real, eta: real, qt: real, n: int, mean: real, stdDev: real): (r: RateResult)
    ensures r.DivisionByZero? <==> qt == 1.0 || n == 0
    ensures r.Rate? ==> r.value * ((1.0 - qt) * n as real) == (1.0 + rho + eta) * mean + stdDev
  {
    var denominator := (1.0 - qt) * n as real;
    ProductZero(1.0 - qt, n as real);
    if denominator == 0.0 then
      DivisionByZero
    else
      Rate(((1.0 + rho + eta) * mean + stdDev) / denominator)
  }

  /** Scaling both Stage-1 results by c scales the rate by c. */
  lemma RateIsHomogeneous(rho: real, eta: real, qt: real, n: int, mean: real, stdDev: real, c: real)
    requires RiskLoadedRate(rho, eta, qt, n, mean, stdDev).Rate?
    ensures RiskLoadedRate(rho, eta, qt, n, c * mean, c * stdDev)
         == Rate(c * RiskLoadedRate(rho, eta, qt, n, mean, stdDev).value)
  {
    var den := (1.0 - qt) * n as real;
    var num := (1.0 + rho + eta) * mean + stdDev;
    assert (1.0 + rho + eta) * (c * mean) + c * stdDev == c * num;
    assert (c * num) / den == c * (num / den);
  }

  /** Stage 3: the total premium PI * n * P. It is 0 exactly when one of the three factors is. */
  function TotalPremium(rate: real, n: int, price: real): (r: real)
    ensures r == 0.0 <==> rate == 0.0 || n == 0 || price == 0.0
  {
    ProductZero(rate, n as real);
    ProductZero(rate * n as real, price);
    rate * n as real * price
  }

  /** The total premium is linear in the price and in the rate: additive, and scaled by a factor c. */
  lemma TotalPremiumIsLinear(rate: real, rate': real, n: int, price: real, price': real, c: real)
    ensures TotalPremium(rate, n, 0.0) == 0.0
    ensures TotalPremium(rate, n, price + price') == TotalPremium(rate, n, price) + TotalPremium(rate, n, price')
    ensures TotalPremium(rate + rate', n, price) == TotalPremium(rate, n, price) + TotalPremium(rate', n, price)
    ensures TotalPremium(rate, n, c * price) == c * TotalPremium(rate, n, price)
    ensures TotalPremium(c * rate, n, price) == c * TotalPremium(rate, n, price)
  {
    var k := rate * n as real;
    assert k * (price + price') == k * price + k * price';
    assert k * (c * price) == c * (k * price);
    var j := n as real * price;
    assert TotalPremium(rate + rate', n, price) == (rate + rate') * j;
    assert TotalPremium(rate, n, price) == rate * j;
    assert TotalPremium(rate', n, price) == rate' * j;
    assert TotalPremium(c * rate, n, price) == (c * rate) * j;
  }

  // ---------------------------------------------------------------- the pipeline

  datatype Quote = Quote(stats: WindowStats, rate: real, total: real)

  /**
   Either all three stages complete, or the Stage-1 guards reject the inputs, or the Stage-2
   guard rejects QT outside [0, 1], or Stage 2 reports division by zero; in the last three
   cases Stage 3 is never reached.
   */
  datatype PipelineResult =
    | Quoted(quote: Quote)
    | RejectedAtStage1(check: Stage1Check)
    | QTOutOfRange
    | HaltedAtStage2

  /**
   Stages 1, 2 and 3 in order, each consuming the previous stage's output, with p = 1 - q
   and the n of Stage 1 reused by Stages 2 and 3. Inputs the Stage-1 guards refuse stop the
   pipeline with the first failing guard's error. Accepted inputs are then stopped by the
   Stage-2 guard when QT is outside [0, 1], and halt with the division-by-zero error exactly
   when QT == 1.
   */
  function PremiumPipeline(a: real, n: int, d: int, u: int, q: real, alpha: real,
                           rho: real, eta: real, qt: real, price: real, sqrt: real -> real): (r: PipelineResult)
    requires IsSqrt(sqrt)
    ensures r.RejectedAtStage1? <==> !Stage1Inputs(n, d, u, q)
    ensures r.RejectedAtStage1? ==> r.check == Stage1Validation(n, d, u, q) && r.check != Accepted
    ensures r.QTOutOfRange? <==> Stage1Inputs(n, d, u, q) && !(0.0 <= qt <= 1.0)
    ensures r.HaltedAtStage2? <==> Stage1Inputs(n, d, u, q) && qt == 1.0
    ensures r.Quoted? ==>
      && Stage1Inputs(n, d, u, q) && 0.0 <= qt < 1.0
      && r.quote.stats == WindowedStatistics(a, n, d, u, q, 1.0 - q, alpha, sqrt)
      && RiskLoadedRate(rho, eta, qt, n, r.quote.stats.mean, r.quote.stats.stdDev) == Rate(r.quote.rate)
      && r.quote.total == TotalPremium(r.quote.rate, n, price)
  {
    var check := Stage1Validation(n, d, u, q);
    if check != Accepted then RejectedAtStage1(check)
    else if !(0.0 <= qt <= 1.0) then QTOutOfRange
    else
      var stats := WindowedStatistics(a, n, d, u, q, 1.0 - q, alpha, sqrt);
      match RiskLoadedRate(rho, eta, qt, n, stats.mean, stats.stdDev)
      case DivisionByZero => HaltedAtStage2
      case Rate(rate) => Quoted(Quote(stats, rate, TotalPremium(rate, n, price)))
  }
}
