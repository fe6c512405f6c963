/**
 Stage 1 of the premium calculator read against the table page's kernel. Let the payout
 of an outcome k be 0 for k <= d, k - d inside the window d < k < u, and alpha (u - d) from
 u on. Then the two moments Stage 1 computes are the first and second moments of that
 payout under Pr{Wt = k}, the modified-binomial vector of the table page.
 */
module WindowKernel {
  import opened RealSums
  import opened BinomialDistribution
  import opened ProbabilityTable
  import opened Premium

  /** What Stage 1 pays for the outcome k: nothing up to d, k - d inside the window, alpha (u - d) from u on. */
  function Payout(d: nat, u: nat, alpha: real, k: nat): real
  {
    if k >= u then Spread(alpha, d, u) else if k > d then (k - d) as real else 0.0
  }

  /** Entry k of v times the m-th power of the payout of k. */
  function PayoutWeighted(v: seq<real>, d: nat, u: nat, alpha: real, m: nat): (w: seq<real>)
    ensures |w| == |v|
  {
    seq(|v|, k requires 0 <= k < |v| => v[k] * Pow(Payout(d, u, alpha, k), m))
  }

  /** Summing a suffix: its first entry plus the sum of the suffix after it. */
  lemma SuffixStep(w: seq<real>, k: nat)
    requires k < |w|
    ensures Sum(w[k..]) == w[k] + Sum(w[k + 1..])
  {
    assert w[k..][1..] == w[k + 1..];
  }

  lemma PayoutEntryFromU(v: seq<real>, d: nat, u: nat, alpha: real, m: nat, c: real, k: nat)
    requires u <= k < |v| && c == Pow(Spread(alpha, d, u), m)
    ensures PayoutWeighted(v, d, u, alpha, m)[k] == c * v[k]
  {
    assert Payout(d, u, alpha, k) == Spread(alpha, d, u);
    MulCommutes(v[k], c);
  }

  lemma ScaledSlice(w: seq<real>, v: seq<real>, c: real, u: nat, tail: real)
    requires |w| == |v| && u <= |v| && tail == Sum(v[u..])
    requires forall k :: u <= k < |v| ==> w[k] == c * v[k]
    ensures Sum(w[u..]) == c * tail
  {
    forall i | 0 <= i < |v| - u
      ensures w[u..][i] == Scale(c, v[u..])[i]
    {
      assert w[u..][i] == w[u + i];
    }
    assert w[u..] == Scale(c, v[u..]);
    SumScale(c, v[u..]);
  }

  /** From u on every payout is alpha (u - d), so that part of the weighted sum is a multiple of v's. */
  lemma PayoutFromU(v: seq<real>, d: nat, u: nat, alpha: real, m: nat, c: real, tail: real)
    requires u <= |v| && c == Pow(Spread(alpha, d, u), m) && tail == Sum(v[u..])
    ensures Sum(PayoutWeighted(v, d, u, alpha, m)[u..]) == c * tail
  {
    var w := PayoutWeighted(v, d, u, alpha, m);
    forall k | u <= k < |v|
      ensures w[k] == c * v[k]
    {
      PayoutEntryFromU(v, d, u, alpha, m, c, k);
    }
    ScaledSlice(w, v, c, u, tail);
  }

  lemma MulCommutes(x: real, y: real)
    ensures x * y == y * x
  {
  }

  /** Inside the window, entry d + ell of the weighted binomial vector is Stage 1's window term for ell. */
  lemma WindowEntry(n: nat, d: nat, u: nat, alpha: real, q: real, m: nat, ell: nat)
    requires 1 <= ell && d + ell < u <= n
    ensures PayoutWeighted(BinomialPmf(n, q), d, u, alpha, m)[d + ell] == WindowTerm(n, d, ell, q, 1.0 - q, m)
  {
    var b := BinomialPmf(n, q);
    assert Payout(d, u, alpha, d + ell) == ell as real;
    MulCommutes(b[d + ell], Pow(ell as real, m));
  }

  /** Inside the window the weighted sum is the rest of Stage 1's ell-sum, then the part from u on. */
  lemma {:induction false} PayoutInWindow(n: nat, d: nat, u: nat, alpha: real, q: real, m: nat, ell: nat)
    requires 1 <= ell && d + ell <= u <= n
    ensures Sum(PayoutWeighted(BinomialPmf(n, q), d, u, alpha, m)[d + ell..])
         == WindowSum(n, d, ell, (u - 1) - d, q, 1.0 - q, m) + Sum(PayoutWeighted(BinomialPmf(n, q), d, u, alpha, m)[u..])
    decreases u - d - ell
  {
    if d + ell < u {
      PayoutInWindow(n, d, u, alpha, q, m, ell + 1);
      SuffixStep(PayoutWeighted(BinomialPmf(n, q), d, u, alpha, m), d + ell);
      WindowEntry(n, d, u, alpha, q, m, ell);
    }
  }

  /** Below the first paying outcome z every weighted entry is 0, so the sum starts at z. */
  lemma PayoutBelow(v: seq<real>, d: nat, u: nat, alpha: real, m: nat, z: nat)
    requires m >= 1 && z <= u && z <= d + 1 && z <= |v|
    ensures Sum(PayoutWeighted(v, d, u, alpha, m)) == Sum(PayoutWeighted(v, d, u, alpha, m)[z..])
  {
    var w := PayoutWeighted(v, d, u, alpha, m);
    PowZero(m);
    forall i | 0 <= i < z
      ensures w[..z][i] == Zeros(z)[i]
    {
      assert Payout(d, u, alpha, i) == 0.0;
    }
    assert w[..z] == Zeros(z);
    assert w == w[..z] + w[z..];
    SumConcat(w[..z], w[z..]);
    SumZeros(z);
  }

  lemma PowZero(m: nat)
    requires m >= 1
    ensures Pow(0.0, m) == 0.0
  {
  }

  /**
   The weighted sum of any vector v splits at the window: nothing below it, the window part
   ws, and the payout times the mass of v from u on.
   */
  lemma PayoutSplit(v: seq<real>, d: nat, u: nat, alpha: real, m: nat, ws: real, pw: real, tail: real)
    requires m >= 1 && d < |v| && u < |v|
    requires d < u ==> Sum(PayoutWeighted(v, d, u, alpha, m)[d + 1..]) == ws + Sum(PayoutWeighted(v, d, u, alpha, m)[u..])
    requires u <= d ==> ws == 0.0
    requires pw == Pow(Spread(alpha, d, u), m) && tail == Sum(v[u..])
    ensures Sum(PayoutWeighted(v, d, u, alpha, m)) == ws + pw * tail
  {
    PayoutFromU(v, d, u, alpha, m, pw, tail);
    if d < u {
      PayoutBelow(v, d, u, alpha, m, d + 1);
    } else {
      PayoutBelow(v, d, u, alpha, m, u);
    }
  }

  /** The weighted window d < k < u of the binomial vector is Stage 1's ell-sum. */
  lemma WindowIsEllSum(n: nat, d: nat, u: nat, alpha: real, q: real, m: nat)
    requires d < u <= n
    ensures Sum(PayoutWeighted(BinomialPmf(n, q), d, u, alpha, m)[d + 1..])
         == EllSum(n, d, u, q, 1.0 - q, m) + Sum(PayoutWeighted(BinomialPmf(n, q), d, u, alpha, m)[u..])
  {
    PayoutInWindow(n, d, u, alpha, q, m, 1);
    assert EllSum(n, d, u, q, 1.0 - q, m) == WindowSum(n, d, 1, (u - 1) - d, q, 1.0 - q, m);
  }

  /** Over the whole binomial vector the weighted sum is Stage 1's ell-sum plus the payout times the tail. */
  lemma BinomialPayoutSum(n: nat, d: nat, u: nat, alpha: real, q: real, m: nat, s: real, pw: real, tail: real)
    requires m >= 1 && d <= n && u <= n
    requires s == EllSum(n, d, u, q, 1.0 - q, m) && pw == Pow(Spread(alpha, d, u), m) && tail == UpperTail(n, u, q, 1.0 - q)
    ensures Sum(PayoutWeighted(BinomialPmf(n, q), d, u, alpha, m)) == s + pw * tail
  {
    if d < u {
      WindowIsEllSum(n, d, u, alpha, q, m);
    }
    UpperTailIsPmfSuffix(n, u, q);
    PayoutSplit(BinomialPmf(n, q), d, u, alpha, m, s, pw, tail);
  }

  /** Under the point mass at n, with u <= n, the payout moment is the payout of n. */
  lemma {:induction false} PointMassPayout(n: nat, d: nat, u: nat, alpha: real, m: nat, pw: real)
    requires u <= n && pw == Pow(Spread(alpha, d, u), m)
    ensures Sum(PayoutWeighted(PointMass(n), d, u, alpha, m)) == pw
  {
    var w := PayoutWeighted(PointMass(n), d, u, alpha, m);
    assert w == Zeros(n) + [Pow(Spread(alpha, d, u), m)];
    SumConcat(Zeros(n), [Pow(Spread(alpha, d, u), m)]);
    SumZeros(n);
  }

  /** Entry k of a weighted mixture is the mixture of the weighted entries. */
  lemma WeightedMixtureEntry(v: seq<real>, a: real, b: seq<real>, pm: seq<real>, d: nat, u: nat, alpha: real, m: nat, k: nat)
    requires |b| == |pm| && v == Combine(a, b, 1.0 - a, pm) && k < |v|
    ensures PayoutWeighted(v, d, u, alpha, m)[k]
         == Combine(a, PayoutWeighted(b, d, u, alpha, m), 1.0 - a, PayoutWeighted(pm, d, u, alpha, m))[k]
  {
    var g := Pow(Payout(d, u, alpha, k), m);
    MixtureTimes(a, b[k], pm[k], g, v[k]);
  }

  /** Weighting a mixture entry by entry weights each of its parts, and so does summing it. */
  lemma WeightedMixture(v: seq<real>, a: real, b: seq<real>, pm: seq<real>, d: nat, u: nat, alpha: real, m: nat)
    requires |b| == |pm| && v == Combine(a, b, 1.0 - a, pm)
    ensures Sum(PayoutWeighted(v, d, u, alpha, m))
         == a * Sum(PayoutWeighted(b, d, u, alpha, m)) + (1.0 - a) * Sum(PayoutWeighted(pm, d, u, alpha, m))
  {
    var wb := PayoutWeighted(b, d, u, alpha, m);
    var wp := PayoutWeighted(pm, d, u, alpha, m);
    forall k | 0 <= k < |v|
      ensures PayoutWeighted(v, d, u, alpha, m)[k] == Combine(a, wb, 1.0 - a, wp)[k]
    {
      WeightedMixtureEntry(v, a, b, pm, d, u, alpha, m, k);
    }
    SumPointwise(PayoutWeighted(v, d, u, alpha, m), Combine(a, wb, 1.0 - a, wp));
    SumCombine(a, wb, 1.0 - a, wp);
  }

  lemma SumPointwise(w: seq<real>, x: seq<real>)
    requires |w| == |x| && forall k :: 0 <= k < |w| ==> w[k] == x[k]
    ensures Sum(w) == Sum(x)
  {
    assert w == x;
  }

  lemma MixtureTimes(a: real, b: real, x: real, g: real, v: real)
    requires v == a * b + (1.0 - a) * x
    ensures v * g == a * (b * g) + (1.0 - a) * (x * g)
  {
  }

  /**
   For any mixture v = a b + (1 - a) pm whose parts have payout moments s + P T and P,
   the payout moment of v regathers to a s + P (a T + (1 - a)).
   */
  lemma MixturePayoutSum(v: seq<real>, a: real, b: seq<real>, pm: seq<real>, d: nat, u: nat, alpha: real, m: nat,
                         s: real, pw: real, tail: real)
    requires |b| == |pm| && v == Combine(a, b, 1.0 - a, pm)
    requires Sum(PayoutWeighted(b, d, u, alpha, m)) == s + pw * tail
    requires Sum(PayoutWeighted(pm, d, u, alpha, m)) == pw
    ensures Sum(PayoutWeighted(v, d, u, alpha, m)) == a * s + pw * Mass(a, tail)
  {
    WeightedMixture(v, a, b, pm, d, u, alpha, m);
    Regather(a, Sum(PayoutWeighted(v, d, u, alpha, m)), Sum(PayoutWeighted(b, d, u, alpha, m)),
             Sum(PayoutWeighted(pm, d, u, alpha, m)), s, pw, tail);
  }

  /**
   The payout moment under the kernel: the binomial part weighted by a, plus the payout
   of n weighted by 1 - a, which regathers to a S + P (a T + (1 - a)), with S the ell-sum,
   P the payout from u on raised to the power m, and T the upper tail.
   */
  lemma KernelPayoutSum(n: nat, q: real, a: real, d: nat, u: nat, alpha: real, m: nat, s: real, pw: real, tail: real)
    requires m >= 1 && d <= n && u <= n
    requires s == EllSum(n, d, u, q, 1.0 - q, m) && pw == Pow(Spread(alpha, d, u), m) && tail == UpperTail(n, u, q, 1.0 - q)
    ensures Sum(PayoutWeighted(ProbabilityVector(n, q, a), d, u, alpha, m)) == a * s + pw * Mass(a, tail)
  {
    BinomialPayoutSum(n, d, u, alpha, q, m, s, pw, tail);
    PointMassPayout(n, d, u, alpha, m, pw);
    MixturePayoutSum(ProbabilityVector(n, q, a), a, BinomialPmf(n, q), PointMass(n), d, u, alpha, m, s, pw, tail);
  }

  /** a (S + P T) + (1 - a) P == a S + P (a T + (1 - a)). */
  lemma Regather(a: real, total: real, sb: real, sp: real, s: real, pw: real, tail: real)
    requires total == a * sb + (1.0 - a) * sp
    requires sb == s + pw * tail && sp == pw
    ensures total == a * s + pw * Mass(a, tail)
  {
  }

  lemma PowOneTwo(x: real)
    ensures Pow(x, 1) == x && Pow(x, 2) == x * x
  {
  }

  /** Stage 1's moments with the mixture written out: a S1 + v M and a S2 + v^2 M. */
  lemma WindowMomentsAre(a: real, n: nat, d: nat, u: nat, q: real, alpha: real, s1: real, s2: real, v: real, tail: real)
    requires s1 == EllSum(n, d, u, q, 1.0 - q, 1) && s2 == EllSum(n, d, u, q, 1.0 - q, 2)
    requires v == Spread(alpha, d, u) && tail == UpperTail(n, u, q, 1.0 - q)
    ensures WindowMoments(a, n, d, u, q, 1.0 - q, alpha).first == a * s1 + v * Mass(a, tail)
    ensures WindowMoments(a, n, d, u, q, 1.0 - q, alpha).second == a * s2 + (v * v) * Mass(a, tail)
  {
  }

  lemma KernelPayoutSumFirst(n: nat, q: real, a: real, d: nat, u: nat, alpha: real, s: real, v: real, tail: real)
    requires d <= n && u <= n
    requires s == EllSum(n, d, u, q, 1.0 - q, 1) && v == Spread(alpha, d, u) && tail == UpperTail(n, u, q, 1.0 - q)
    ensures Sum(PayoutWeighted(ProbabilityVector(n, q, a), d, u, alpha, 1)) == a * s + v * Mass(a, tail)
  {
    PowOneTwo(v);
    KernelPayoutSum(n, q, a, d, u, alpha, 1, s, v, tail);
  }

  lemma KernelPayoutSumSecond(n: nat, q: real, a: real, d: nat, u: nat, alpha: real, s: real, v: real, tail: real)
    requires d <= n && u <= n
    requires s == EllSum(n, d, u, q, 1.0 - q, 2) && v == Spread(alpha, d, u) && tail == UpperTail(n, u, q, 1.0 - q)
    ensures Sum(PayoutWeighted(ProbabilityVector(n, q, a), d, u, alpha, 2)) == a * s + (v * v) * Mass(a, tail)
  {
    PowOneTwo(v);
    KernelPayoutSum(n, q, a, d, u, alpha, 2, s, v * v, tail);
  }

  /**
   Stage 1's moments are moments of the table page's kernel: under the Stage-1 guards and
   p = 1 - q, E[Wt(d,u)] is the sum over k of Pr{Wt = k} times the payout of k, and the
   second moment is the same sum with the payout squared. This holds for every a.
   */
  lemma MomentsUnderKernel(a: real, n: int, d: int, u: int, q: real, alpha: real)
    requires Stage1Inputs(n, d, u, q)
    ensures WindowMoments(a, n, d, u, q, 1.0 - q, alpha).first
         == Sum(PayoutWeighted(ProbabilityVector(n, q, a), d, u, alpha, 1))
    ensures WindowMoments(a, n, d, u, q, 1.0 - q, alpha).second
         == Sum(PayoutWeighted(ProbabilityVector(n, q, a), d, u, alpha, 2))
  {
    var s1, s2 := EllSum(n, d, u, q, 1.0 - q, 1), EllSum(n, d, u, q, 1.0 - q, 2);
    var v, tail := Spread(alpha, d, u), UpperTail(n, u, q, 1.0 - q);
    WindowMomentsAre(a, n, d, u, q, alpha, s1, s2, v, tail);
    KernelPayoutSumFirst(n, q, a, d, u, alpha, s1, v, tail);
    KernelPayoutSumSecond(n, q, a, d, u, alpha, s2, v, tail);
  }
}
