/**
 The binomial(n, q) distribution over exact reals: its terms C(n, k) q^k p^(n-k), its
 probability vector for k = 0..n, and the binomial theorem (the vector sums to 1).
 */
module BinomialDistribution {
  import opened Combinatorics
  import opened RealSums

  /** C(n, k) q^k p^(n-k), the term both source files compute with their own C(n, k). */
  function BinomialTerm(n: nat, k: nat, q: real, p: real): real
    requires k <= n
  {
    Choose(n, k) as real * Pow(q, k) * Pow(p, n - k)
  }

  /** The binomial(n, q) probability mass function as a vector indexed by k = 0..n. */
  function BinomialPmf(n: nat, q: real): (v: seq<real>)
    ensures |v| == n + 1
  {
    seq(n + 1, k requires 0 <= k <= n => BinomialTerm(n, k, q, 1.0 - q))
  }

  lemma BinomialTermNonNegative(n: nat, k: nat, q: real, p: real)
    requires k <= n
    requires 0.0 <= q && 0.0 <= p
    ensures 0.0 <= BinomialTerm(n, k, q, p)
  {
    PowBounds(q, k);
    PowBounds(p, n - k);
    var c := Choose(n, k) as real;
    assert 0.0 <= c * Pow(q, k);
  }

  /** Term (n, k) of the binomial(n, q) pmf, and 0 for k outside 0..n. */
  function TermOrZero(n: nat, k: int, q: real): real
  {
    if 0 <= k <= n then BinomialTerm(n, k, q, 1.0 - q) else 0.0
  }

  /** Pascal's step for the pmf: Term(n+1, k) == p * Term(n, k) + q * Term(n, k-1), terms out of range being 0. */
  lemma PascalTermOrZero(n: nat, k: nat, q: real)
    requires k <= n + 1
    ensures TermOrZero(n + 1, k, q) == (1.0 - q) * TermOrZero(n, k, q) + q * TermOrZero(n, k - 1, q)
  {
    if k == 0 {
      PascalFirst(n, q);
    } else if k == n + 1 {
      PascalLast(n, q);
    } else {
      PascalTerm(n, k, q, 1.0 - q);
    }
  }

  /** k = 0: only the p-branch contributes. */
  lemma PascalFirst(n: nat, q: real)
    ensures BinomialTerm(n + 1, 0, q, 1.0 - q) == (1.0 - q) * BinomialTerm(n, 0, q, 1.0 - q)
  {
    PowSucc(1.0 - q, n);
  }

  /** k = n + 1: only the q-branch contributes. */
  lemma PascalLast(n: nat, q: real)
    ensures BinomialTerm(n + 1, n + 1, q, 1.0 - q) == q * BinomialTerm(n, n, q, 1.0 - q)
  {
    PowSucc(q, n);
  }

  /** Entry k of the Pascal step, on the padded and the shifted pmf vectors. */
  lemma PascalEntry(n: nat, k: nat, q: real)
    requires k <= n + 1
    ensures BinomialPmf(n + 1, q)[k]
         == Combine(1.0 - q, BinomialPmf(n, q) + [0.0], q, [0.0] + BinomialPmf(n, q))[k]
  {
    var v := BinomialPmf(n, q);
    assert (v + [0.0])[k] == TermOrZero(n, k, q);
    assert ([0.0] + v)[k] == TermOrZero(n, k - 1, q);
    PascalTermOrZero(n, k, q);
  }

  /** The interior case 0 < k <= n of the Pascal step, for arbitrary q and p. */
  lemma PascalTerm(n: nat, k: nat, q: real, p: real)
    requires 0 < k <= n
    ensures BinomialTerm(n + 1, k, q, p) == p * BinomialTerm(n, k, q, p) + q * BinomialTerm(n, k - 1, q, p)
  {
    TermSplit(n, k, q, p);
    TermLeft(n, k, q, p);
    TermRight(n, k, q, p);
  }

  /** Pascal's rule splits C(n + 1, k) q^k p^(n+1-k) into its C(n, k) and C(n, k - 1) parts. */
  lemma TermSplit(n: nat, k: nat, q: real, p: real)
    requires 0 < k <= n
    ensures BinomialTerm(n + 1, k, q, p)
         == Choose(n, k) as real * Pow(q, k) * Pow(p, n + 1 - k) + Choose(n, k - 1) as real * Pow(q, k) * Pow(p, n + 1 - k)
  {
    ChoosePascal(n, k);
  }

  /** The C(n, k) part is p times the term (n, k). */
  lemma TermLeft(n: nat, k: nat, q: real, p: real)
    requires 0 < k <= n
    ensures Choose(n, k) as real * Pow(q, k) * Pow(p, n + 1 - k) == p * BinomialTerm(n, k, q, p)
  {
    PowSucc(p, n - k);
  }

  /** The C(n, k - 1) part is q times the term (n, k - 1). */
  lemma TermRight(n: nat, k: nat, q: real, p: real)
    requires 0 < k <= n
    ensures Choose(n, k - 1) as real * Pow(q, k) * Pow(p, n + 1 - k) == q * BinomialTerm(n, k - 1, q, p)
  {
    PowSucc(q, k - 1);
  }

  /** The binomial(n + 1, q) vector is p times the binomial(n, q) vector plus q times its shift by one. */
  lemma PmfPascal(n: nat, q: real)
    ensures BinomialPmf(n + 1, q)
         == Combine(1.0 - q, BinomialPmf(n, q) + [0.0], q, [0.0] + BinomialPmf(n, q))
  {
    var lhs := BinomialPmf(n + 1, q);
    var rhs := Combine(1.0 - q, BinomialPmf(n, q) + [0.0], q, [0.0] + BinomialPmf(n, q));
    forall k | 0 <= k < |lhs|
      ensures lhs[k] == rhs[k]
    {
      PascalEntry(n, k, q);
    }
  }

  /** The binomial theorem with p = 1 - q: the binomial(n, q) vector sums to (q + p)^n == 1, for every real q. */
  lemma {:induction false} BinomialTheorem(n: nat, q: real)
    ensures Sum(BinomialPmf(n, q)) == 1.0
  {
    if n == 0 {
      assert BinomialPmf(0, q) == [1.0];
    } else {
      BinomialTheorem(n - 1, q);
      PascalSum(n - 1, q);
    }
  }

  /** The Pascal step preserves the total: Sum(pmf(n + 1)) == p Sum(pmf(n)) + q Sum(pmf(n)). */
  lemma PascalSum(n: nat, q: real)
    ensures Sum(BinomialPmf(n + 1, q)) == (1.0 - q) * Sum(BinomialPmf(n, q)) + q * Sum(BinomialPmf(n, q))
  {
    var v := BinomialPmf(n, q);
    PmfPascal(n, q);
    SumCombine(1.0 - q, v + [0.0], q, [0.0] + v);
    SumPadded(v);
    SumShifted(v);
  }

  lemma SumPadded(v: seq<real>)
    ensures Sum(v + [0.0]) == Sum(v)
  {
    SumConcat(v, [0.0]);
    assert Sum([0.0]) == 0.0;
  }

  lemma SumShifted(v: seq<real>)
    ensures Sum([0.0] + v) == Sum(v)
  {
    assert ([0.0] + v)[1..] == v;
  }

  /** For q in [0, 1] the binomial(n, q) vector is a probability distribution. */
  lemma PmfIsDistribution(n: nat, q: real)
    requires 0.0 <= q <= 1.0
    ensures forall k :: 0 <= k <= n ==> 0.0 <= BinomialPmf(n, q)[k] <= 1.0
    ensures Sum(BinomialPmf(n, q)) == 1.0
  {
    var v := BinomialPmf(n, q);
    forall k | 0 <= k <= n
      ensures 0.0 <= v[k]
    {
      BinomialTermNonNegative(n, k, q, 1.0 - q);
    }
    BinomialTheorem(n, q);
    NonNegativeSum(v);
  }
}
