/**
 The probability-table page (CalculatorModelPremi.py): the modified-binomial probability
 kernel Pr{Wt = k} and the assembly of the table, one column per lambda label.

 The survival factor a = exp(-lambda * t) is computed by `exp`, a parameter: the model
 only assumes, where a lemma needs it, that exp maps non-positive arguments into [0, 1].

 The kernel and the table are exact. `KernelAsWritten` and `TablePageAsWritten` add the one
 place where Python's arithmetic changes the outcome: converting C(n, k) to a float raises
 OverflowError once the coefficient is too large, and the page then clears the table.
 */
module ProbabilityTable {
  import opened Combinatorics
  import opened RealSums
  import opened BinomialDistribution
  import opened FloatRange

  /** All probability mass on the absorbing outcome k = n. */
  function PointMass(n: nat): (v: seq<real>)
    ensures |v| == n + 1
  {
    seq(n + 1, k requires 0 <= k <= n => if k == n then 1.0 else 0.0)
  }

  lemma {:induction false} PointMassSum(n: nat)
    ensures Sum(PointMass(n)) == 1.0
  {
    if n > 0 {
      assert PointMass(n)[1..] == PointMass(n - 1);
      PointMassSum(n - 1);
    }
  }

  /** Pr{Wt = k} for one k in 0..n: C(n, k) q^k p^(n-k) a below n, and q^n a + (1 - a) at n. */
  function KernelEntry(n: nat, q: real, a: real, k: nat): real
    requires k <= n
  {
    var p := 1.0 - q;
    if k < n then Choose(n, k) as real * Pow(q, k) * Pow(p, n - k) * a
    else Pow(q, n) * a + (1.0 - a)
  }

  /** Each entry is a times the binomial term plus (1 - a) times the point mass at n. */
  lemma KernelEntryIsMixture(n: nat, q: real, a: real, k: nat)
    requires k <= n
    ensures KernelEntry(n, q, a, k) == a * BinomialPmf(n, q)[k] + (1.0 - a) * PointMass(n)[k]
  {
    var b := BinomialPmf(n, q)[k];
    if k < n {
      var c := Choose(n, k) as real * Pow(q, k) * Pow(1.0 - q, n - k);
      assert b == c;
      assert PointMass(n)[k] == 0.0;
      assert KernelEntry(n, q, a, k) == c * a;
    } else {
      assert b == 1.0 * Pow(q, n) * 1.0;
      assert PointMass(n)[k] == 1.0;
    }
  }

  /**
   The vector of Pr{Wt = k} for k = 0..n, built entry by entry as the source's loop does:
   C(n, k) q^k p^(n-k) a for k < n and q^n a + (1 - a) at k = n, with p = 1 - q. As a
   whole it is the mixture a * binomial(n, q) + (1 - a) * (point mass at n).
   */
  function ProbabilityVector(n: nat, q: real, a: real): (v: seq<real>)
    ensures |v| == n + 1
    ensures v == Combine(a, BinomialPmf(n, q), 1.0 - a, PointMass(n))
  {
    var v := seq(n + 1, k requires 0 <= k <= n => KernelEntry(n, q, a, k));
    var mix := Combine(a, BinomialPmf(n, q), 1.0 - a, PointMass(n));
    forall k | 0 <= k <= n
      ensures v[k] == mix[k]
    {
      KernelEntryIsMixture(n, q, a, k);
    }
    assert v == mix;
    v
  }

  /** Over exact reals the vector sums to 1 for every q and every a (binomial theorem). */
  lemma KernelSumsToOne(n: nat, q: real, a: real)
    ensures Sum(ProbabilityVector(n, q, a)) == 1.0
  {
    SumCombine(a, BinomialPmf(n, q), 1.0 - a, PointMass(n));
    BinomialTheorem(n, q);
    PointMassSum(n);
  }

  /** With q and a in [0, 1] every entry is a probability and the entries sum to 1. */
  lemma KernelIsDistribution(n: nat, q: real, a: real)
    requires 0.0 <= q <= 1.0
    requires 0.0 <= a <= 1.0
    ensures forall k :: 0 <= k <= n ==> 0.0 <= ProbabilityVector(n, q, a)[k] <= 1.0
    ensures Sum(ProbabilityVector(n, q, a)) == 1.0
  {
    var v := ProbabilityVector(n, q, a);
    PmfIsDistribution(n, q);
    forall k | 0 <= k <= n
      ensures 0.0 <= v[k]
    {
      var b := BinomialPmf(n, q)[k];
      var m := PointMass(n)[k];
      assert 0.0 <= b;
      assert 0.0 <= m;
      assert v[k] == a * b + (1.0 - a) * m;
      MulNonNegative(a, b);
      MulNonNegative(1.0 - a, m);
    }
    KernelSumsToOne(n, q, a);
    NonNegativeSum(v);
  }

  /** a == 1 (no absorption by time t): the vector is exactly the binomial(n, q) pmf. */
  lemma KernelWithoutAbsorption(n: nat, q: real)
    ensures ProbabilityVector(n, q, 1.0) == BinomialPmf(n, q)
  {
    var v := ProbabilityVector(n, q, 1.0);
    assert forall k :: 0 <= k <= n ==> v[k] == BinomialPmf(n, q)[k];
  }

  /** a == 0 (certain absorption): all mass sits at k = n. */
  lemma KernelFullAbsorption(n: nat, q: real)
    ensures ProbabilityVector(n, q, 0.0) == PointMass(n)
  {
    var v := ProbabilityVector(n, q, 0.0);
    assert forall k :: 0 <= k <= n ==> v[k] == PointMass(n)[k];
  }

  /** One (label, lambda) item of the input, in the order the caller supplied them. */
  datatype LambdaEntry = LambdaEntry(name: string, lambda: real)

  datatype Column = Column(name: string, values: seq<real>)

  /** The `k` column and the lambda columns; the empty table has neither rows nor columns. */
  datatype Table = Table(k: seq<int>, columns: seq<Column>)

  const EmptyTable: Table := Table([], [])

  /** n is a non-negative integer, q is in [0, 1] and t is non-negative. */
  predicate ValidTableParameters(n: int, q: real, t: real)
  {
    n >= 0 && 0.0 <= q <= 1.0 && t >= 0.0
  }

  /** exp behaves like exp on the half-line the table uses: non-positive arguments land in [0, 1]. */
  ghost predicate ExpOnNonPositive(exp: real -> real)
  {
    forall x :: x <= 0.0 ==> 0.0 <= exp(x) <= 1.0
  }

  /** The survival factor a = exp(-lambda * t). */
  function Survival(exp: real -> real, lambda: real, t: real): real
  {
    exp(-(lambda * t))
  }

  lemma SurvivalIsProbability(exp: real -> real, lambda: real, t: real)
    requires ExpOnNonPositive(exp)
    requires 0.0 <= lambda && 0.0 <= t
    ensures 0.0 <= Survival(exp, lambda, t) <= 1.0
  {
    MulNonNegative(lambda, t);
  }

  /**
   The column of one lambda: all zeros when lambda < 0, otherwise the kernel with
   a = exp(-lambda * t). With q and a in [0, 1] a kernel column is a probability vector.
   */
  function LambdaColumn(n: nat, q: real, t: real, exp: real -> real, e: LambdaEntry): (c: Column)
    ensures c.name == e.name && |c.values| == n + 1
    ensures e.lambda < 0.0 ==> c.values == Zeros(n + 1) && Sum(c.values) == 0.0
    ensures e.lambda >= 0.0 ==> c.values == ProbabilityVector(n, q, Survival(exp, e.lambda, t))
    ensures e.lambda >= 0.0 && 0.0 <= q <= 1.0 && 0.0 <= Survival(exp, e.lambda, t) <= 1.0 ==>
      && Sum(c.values) == 1.0
      && (forall i :: 0 <= i <= n ==> 0.0 <= c.values[i] <= 1.0)
  {
    if e.lambda < 0.0 then
      SumZeros(n + 1);
      Column(e.name, Zeros(n + 1))
    else
      var a := Survival(exp, e.lambda, t);
      KernelIsDistributionWhen(n, q, a);
      Column(e.name, ProbabilityVector(n, q, a))
  }

  lemma KernelIsDistributionWhen(n: nat, q: real, a: real)
    ensures 0.0 <= q <= 1.0 && 0.0 <= a <= 1.0 ==>
      && Sum(ProbabilityVector(n, q, a)) == 1.0
      && (forall k :: 0 <= k <= n ==> 0.0 <= ProbabilityVector(n, q, a)[k] <= 1.0)
  {
    if 0.0 <= q <= 1.0 && 0.0 <= a <= 1.0 {
      KernelIsDistribution(n, q, a);
    }
  }

  /** Appends one column per entry, in input order. */
  function LambdaColumns(n: nat, q: real, t: real, exp: real -> real, entries: seq<LambdaEntry>): (cs: seq<Column>)
    ensures |cs| == |entries|
    ensures forall j :: 0 <= j < |entries| ==> cs[j] == LambdaColumn(n, q, t, exp, entries[j])
  {
    if |entries| == 0 then []
    else
      LambdaColumns(n, q, t, exp, entries[..|entries| - 1])
        + [LambdaColumn(n, q, t, exp, entries[|entries| - 1])]
  }

  /**
   The probability table: empty exactly when a parameter is invalid; otherwise k runs over
   0..n in ascending order and there is one column of n + 1 rows per entry, in input order,
   each depending on its own entry only.
   */
  function GenerateTable(n: int, q: real, t: real, exp: real -> real, entries: seq<LambdaEntry>): (tbl: Table)
    ensures tbl == EmptyTable <==> !ValidTableParameters(n, q, t)
    ensures ValidTableParameters(n, q, t) ==>
      && |tbl.k| == n + 1
      && (forall i :: 0 <= i <= n ==> tbl.k[i] == i)
      && |tbl.columns| == |entries|
      && (forall j :: 0 <= j < |entries| ==>
            && tbl.columns[j].name == entries[j].name
            && |tbl.columns[j].values| == n + 1
            && (entries[j].lambda < 0.0 ==> tbl.columns[j].values == Zeros(n + 1))
            && (entries[j].lambda >= 0.0 ==>
                  tbl.columns[j].values == ProbabilityVector(n, q, Survival(exp, entries[j].lambda, t))))
  {
    if !ValidTableParameters(n, q, t) then EmptyTable
    else Table(seq(n + 1, i => i), LambdaColumns(n, q, t, exp, entries))
  }

  /**
   Every column of a valid table is a probability vector summing to 1, except a column of
   negative lambda, which sums to 0: the column-total expectation of the table display.
   */
  lemma TableColumnsAreDistributions(n: int, q: real, t: real, exp: real -> real, entries: seq<LambdaEntry>)
    requires ValidTableParameters(n, q, t)
    requires ExpOnNonPositive(exp)
    ensures forall j :: 0 <= j < |entries| && entries[j].lambda >= 0.0 ==>
      && Sum(GenerateTable(n, q, t, exp, entries).columns[j].values) == 1.0
      && (forall i :: 0 <= i <= n ==> 0.0 <= GenerateTable(n, q, t, exp, entries).columns[j].values[i] <= 1.0)
    ensures forall j :: 0 <= j < |entries| && entries[j].lambda < 0.0 ==>
      Sum(GenerateTable(n, q, t, exp, entries).columns[j].values) == 0.0
  {
    var tbl := GenerateTable(n, q, t, exp, entries);
    forall j | 0 <= j < |entries|
      ensures entries[j].lambda >= 0.0 ==>
        && Sum(tbl.columns[j].values) == 1.0
        && (forall i :: 0 <= i <= n ==> 0.0 <= tbl.columns[j].values[i] <= 1.0)
      ensures entries[j].lambda < 0.0 ==> Sum(tbl.columns[j].values) == 0.0
    {
      ColumnIsDistribution(n, q, t, exp, entries[j]);
    }
  }

  lemma ColumnIsDistribution(n: nat, q: real, t: real, exp: real -> real, e: LambdaEntry)
    requires ValidTableParameters(n, q, t)
    requires ExpOnNonPositive(exp)
    ensures e.lambda >= 0.0 ==>
      && Sum(LambdaColumn(n, q, t, exp, e).values) == 1.0
      && (forall i :: 0 <= i <= n ==> 0.0 <= LambdaColumn(n, q, t, exp, e).values[i] <= 1.0)
    ensures e.lambda < 0.0 ==> Sum(LambdaColumn(n, q, t, exp, e).values) == 0.0
  {
    if e.lambda >= 0.0 {
      SurvivalIsProbability(exp, e.lambda, t);
    }
  }

  /**
   What the kernel loop does under Python's arithmetic. `math.comb(n, k) * (q**k)` converts
   C(n, k) to a float at every k < n, in ascending k, and the first coefficient out of range
   raises OverflowError; otherwise the loop yields the kernel.
   */
  datatype KernelOutcome = Probabilities(values: seq<real>) | ConversionOverflow(k: nat)

  /** The first k in [from, n) whose coefficient does not convert, or n when there is none. */
  function FirstUnconvertible(n: nat, from: nat): (k: nat)
    requires from <= n
    ensures from <= k <= n
    ensures k < n ==> !ConvertsToFloat(Choose(n, k))
    ensures forall j :: from <= j < k ==> ConvertsToFloat(Choose(n, j))
    decreases n - from
  {
    if from == n then n
    else if !ConvertsToFloat(Choose(n, from)) then from
    else FirstUnconvertible(n, from + 1)
  }

  function KernelAsWritten(n: nat, q: real, a: real): (r: KernelOutcome)
    ensures r.Probabilities? <==> CoefficientsConvert(n)
    ensures r.Probabilities? ==> r.values == ProbabilityVector(n, q, a)
    ensures r.ConversionOverflow? ==>
      && r.k < n && !ConvertsToFloat(Choose(n, r.k))
      && (forall j :: 0 <= j < r.k ==> ConvertsToFloat(Choose(n, j)))
  {
    var k := FirstUnconvertible(n, 0);
    if k < n then ConversionOverflow(k) else Probabilities(ProbabilityVector(n, q, a))
  }

  /** From n = 1030 on, the kernel as written raises OverflowError for every q and a. */
  lemma KernelOverflowsFrom1030(n: nat, q: real, a: real)
    requires n >= 1030
    ensures KernelAsWritten(n, q, a).ConversionOverflow?
  {
    CoefficientsOverflowFrom1030(n);
  }

  /** Some entry has a non-negative lambda, so the page calls the kernel at least once. */
  predicate CallsKernel(entries: seq<LambdaEntry>)
  {
    exists j :: 0 <= j < |entries| && entries[j].lambda >= 0.0
  }

  lemma CallsKernelSplit(entries: seq<LambdaEntry>)
    requires |entries| > 0
    ensures CallsKernel(entries) <==>
      CallsKernel(entries[..|entries| - 1]) || entries[|entries| - 1].lambda >= 0.0
  {
    var front := entries[..|entries| - 1];
    if CallsKernel(entries) {
      var j :| 0 <= j < |entries| && entries[j].lambda >= 0.0;
      if j < |front| {
        assert front[j] == entries[j];
      }
    }
    if CallsKernel(front) {
      var j :| 0 <= j < |front| && front[j].lambda >= 0.0;
      assert entries[j] == front[j];
    }
  }

  /** The columns as the page's loop builds them, or the exception one of them raised. */
  datatype ColumnsOutcome = Built(columns: seq<Column>) | Raised

  function ColumnsAsWritten(n: nat, q: real, t: real, exp: real -> real, entries: seq<LambdaEntry>): (r: ColumnsOutcome)
    ensures r.Raised? <==> !CoefficientsConvert(n) && CallsKernel(entries)
    ensures r.Built? ==> r.columns == LambdaColumns(n, q, t, exp, entries)
  {
    if |entries| == 0 then Built([])
    else
      var front := entries[..|entries| - 1];
      var e := entries[|entries| - 1];
      var rest := ColumnsAsWritten(n, q, t, exp, front);
      CallsKernelSplit(entries);
      if rest.Raised? then Raised
      else if e.lambda < 0.0 then Built(rest.columns + [LambdaColumn(n, q, t, exp, e)])
      else match KernelAsWritten(n, q, Survival(exp, e.lambda, t))
        case ConversionOverflow(_) => Raised
        case Probabilities(v) => Built(rest.columns + [Column(e.name, v)])
  }

  /**
   The table page as written: with no lambda at all the page clears the table without
   building one; otherwise `generate_probability_table` runs inside the page's `try`, whose
   handler replaces the table by an empty one when a kernel call raises.
   */
  function TablePageAsWritten(n: int, q: real, t: real, exp: real -> real, entries: seq<LambdaEntry>): (tbl: Table)
    ensures |entries| > 0 && CoefficientsConvert(if n < 0 then 0 else n) ==> tbl == GenerateTable(n, q, t, exp, entries)
    ensures tbl != EmptyTable ==> tbl == GenerateTable(n, q, t, exp, entries)
    ensures tbl == EmptyTable <==>
      || |entries| == 0
      || !ValidTableParameters(n, q, t)
      || (!CoefficientsConvert(n) && CallsKernel(entries))
  {
    if |entries| == 0 || !ValidTableParameters(n, q, t) then EmptyTable
    else match ColumnsAsWritten(n, q, t, exp, entries)
      case Raised => EmptyTable
      case Built(cs) => Table(seq(n + 1, i => i), cs)
  }

  /**
   From n = 1030 on, the page as written shows an empty table as soon as one lambda is
   non-negative, while the exact table has n + 1 rows whose kernel columns sum to 1.
   */
  lemma TablePageClearedFrom1030(n: int, q: real, t: real, exp: real -> real, entries: seq<LambdaEntry>, j: nat)
    requires ValidTableParameters(n, q, t) && n >= 1030
    requires j < |entries| && entries[j].lambda >= 0.0
    requires ExpOnNonPositive(exp)
    ensures TablePageAsWritten(n, q, t, exp, entries) == EmptyTable
    ensures GenerateTable(n, q, t, exp, entries) != EmptyTable
    ensures Sum(GenerateTable(n, q, t, exp, entries).columns[j].values) == 1.0
  {
    CoefficientsOverflowFrom1030(n);
    TableColumnsAreDistributions(n, q, t, exp, entries);
  }
}
