# Livestock insurance calculator: the numeric core in Dafny

The repository is a pair of Streamlit pages for pricing livestock insurance. Under the
widgets sit two small numeric components. This project models both of them in Dafny,
over exact reals, and proves what they compute.

- **The premium pipeline** (`premi.py`) runs three stages.
  - `combinations` is the exact integer C(n, k).
  - Stage 1 (`calculate_E_Wt_and_StdDev_Wt`) computes the expectation E[Wt(d,u)] and the
    standard deviation of the windowed loss count. It uses the ell-sums over the window,
    the upper binomial tail T from u to n, and the survival factor a.
  - Stage 2 (`calculate_PI_bar`) is the risk-loaded rate
    PI = ((1 + rho + eta) E + StdDev) / ((1 - QT) n). It returns an error value when the
    denominator is zero.
  - Stage 3 (`calculate_P_TOTAL`) is the total premium PI * n * P.
  - The Stage-1 input guards become `Stage1Validation`, which accepts exactly the inputs
    of `Stage1Inputs` (q in [0, 1], n >= 1, d and u in [0, n]) and otherwise names the
    first guard that fails.
- **The probability table** (`CalculatorModelPremi.py`) has three parts.
  - `calculate_pr_Wt_k_for_single_lambda` builds the modified-binomial vector
    Pr{Wt = k}, k = 0..n. It is the binomial(n, q) mass scaled by a = exp(-lambda t), plus
    an absorbing mass 1 - a at k = n.
  - `generate_probability_table` validates n, q and t, then adds one column per lambda
    label. A negative lambda gives a column of zeros.
  - The file name offered for the download is normalised: stripped, with ".csv" appended
    when missing, falling back to a default when blank.

Modules:

| file | module | contents |
|---|---|---|
| `combinatorics.dfy` | `Combinatorics` | `Choose` (Pascal's rule, the reference), `Fact`, and the loop `Combinations`, proved to compute `Choose` |
| `realsums.dfy` | `RealSums` | natural powers, finite sums of real sequences, linearity of the sum |
| `binomial.dfy` | `BinomialDistribution` | binomial terms and pmf vector; the binomial theorem via Pascal's step |
| `table.dfy` | `ProbabilityTable` | the kernel as the mixture a * binomial + (1 - a) * point mass; table assembly |
| `download_name.dfy` | `DownloadName` | Python's `str.strip` and the ".csv" normalisation |
| `float_range.dfy` | `FloatRange` | the range of Python's int-to-float conversion; C(n, n/2) leaves it from n = 1030 |
| `premium.dfy` | `Premium` | Stage 1 sums and moments, the variance proof, Stages 2 and 3, the pipeline |
| `window_kernel.dfy` | `WindowKernel` | Stage 1's moments as payout moments under the table page's kernel |

Two functions are parameters rather than models:

- `exp`, of type `real -> real`. Lemmas that need it assume only that it maps
  non-positive reals into [0, 1].
- `sqrt`, of type `real -> real`, required to return the non-negative root of a
  non-negative argument.

Python's `math.comb`, which the table uses, is modelled by the same `Choose` as
`combinations` in `premi.py`.

## Model

| member | source | states |
|---|---|---|
| `Combinatorics.Combinations` | premi.py:6-23 | The loop returns exactly C(n, k). It returns 0 for k < 0 or k > n and 1 for k in {0, n}, and C(n, k) k! (n-k)! == n!. The invariant res == C(n, i) holds after each step. Each `// (i + 1)` is exact, and the switch to n - k is sound. |
| `Combinatorics.ChooseSymmetric` | premi.py:16-18 | C(n, k) == C(n, n - k), which makes iterating on min(k, n - k) correct. |
| `Combinatorics.ChooseStep` | premi.py:20-23 | C(n, i) (n - i) == (i + 1) C(n, i + 1), so the floor division in each loop step is exact. |
| `Combinatorics.ChooseFactorial` | premi.py:7-10 | C(n, k) k! (n - k)! == n!: the coefficient is the closed form the docstring names. |
| `BinomialDistribution.BinomialTheorem` | CalculatorModelPremi.py:25-30 | With p = 1 - q, the terms C(n, k) q^k p^(n-k) for k = 0..n sum to 1 for every real q. |
| `BinomialDistribution.PmfIsDistribution` | CalculatorModelPremi.py:25-30 | For q in [0, 1], every binomial term lies in [0, 1] and the terms sum to 1. |
| `BinomialDistribution.PmfPascal` | CalculatorModelPremi.py:26-28 | The binomial(n + 1, q) vector is p times the binomial(n, q) vector padded with a 0, plus q times the same vector shifted by one. |
| `ProbabilityTable.ProbabilityVector` | CalculatorModelPremi.py:12-34 | The kernel, built entry by entry from the formula at lines 26-30 (C(n, k) q^k p^(n-k) a for k < n, q^n a + (1 - a) at k = n), has n + 1 entries and equals the mixture a * binomial(n, q) + (1 - a) * (point mass at n). |
| `ProbabilityTable.KernelEntryIsMixture` | CalculatorModelPremi.py:26-30 | Each single entry, k < n by the coefficient formula and k == n by the absorbing formula, is a * (binomial mass at k) + (1 - a) * (point mass at n, evaluated at k). |
| `ProbabilityTable.KernelSumsToOne` | CalculatorModelPremi.py:175-186 | Over exact reals the kernel sums to 1 for every q and a: the column total the page checks with isclose. |
| `ProbabilityTable.KernelIsDistribution` | CalculatorModelPremi.py:25-32 | For q and a in [0, 1], every entry is in [0, 1] and the entries sum to 1. |
| `ProbabilityTable.KernelWithoutAbsorption` | CalculatorModelPremi.py:27-30 | With a == 1 the kernel is exactly the binomial(n, q) pmf. |
| `ProbabilityTable.KernelFullAbsorption` | CalculatorModelPremi.py:29-30 | With a == 0 all mass sits at k = n. |
| `ProbabilityTable.SurvivalIsProbability` | CalculatorModelPremi.py:17 | For lambda >= 0 and t >= 0, a = exp(-lambda t) is in [0, 1], given only that exp maps non-positive reals into [0, 1]. |
| `ProbabilityTable.LambdaColumn` | CalculatorModelPremi.py:43-49 | A column keeps its label and has n + 1 values. A negative lambda gives all zeros (sum 0). Otherwise the column is the kernel at a = exp(-lambda t), and with q in [0, 1] and a in [0, 1] its values lie in [0, 1] and sum to 1. |
| `ProbabilityTable.LambdaColumns` | CalculatorModelPremi.py:42-49 | One column per entry, in input order; column j depends on entry j alone. |
| `ProbabilityTable.GenerateTable` | CalculatorModelPremi.py:36-51 | The table is empty exactly when n < 0, q is outside [0, 1] or t < 0. Otherwise: k runs 0..n in ascending order; there is one column of n + 1 rows per label, in input order; a negative lambda gives all zeros; any other lambda gives the kernel at a = exp(-lambda t). |
| `ProbabilityTable.TableColumnsAreDistributions` | CalculatorModelPremi.py:175-186 | In a valid table every column with lambda >= 0 has entries in [0, 1] summing to 1; a negative-lambda column sums to 0. |
| `FloatRange.LimitBelowPow2` | CalculatorModelPremi.py:28 | `ConvertsToFloat` is defined by the bound 2^1024 - 2^970: Python's int-to-float conversion rounds to nearest, ties to even, at 53 bits, so this is the smallest integer that rounds to 2^1024 and overflows (the module comment gives the argument). The lemma checks that the decimal constant used equals 2^1024 - 2^970 and lies below 2^1024. |
| `FloatRange.CentralBound` | CalculatorModelPremi.py:27-28 | For m >= 1, 4m C(2m, m)^2 >= 4^(2m): the central coefficient is at least 4^m / sqrt(4m). |
| `FloatRange.MiddleCoefficientTooLarge` | CalculatorModelPremi.py:27-28 | For every n >= 1030, C(n, n/2) (with n/2 < n) does not convert to a float. |
| `FloatRange.CoefficientsOverflowFrom1030` | CalculatorModelPremi.py:25-28 | For every n >= 1030, some C(n, k) with k < n, a k the kernel loop reaches, is out of the float range. |
| `ProbabilityTable.KernelAsWritten` | CalculatorModelPremi.py:25-28 | The kernel as Python evaluates it returns probabilities exactly when every C(n, k), k < n, converts; they are then the exact kernel. Otherwise it raises at the first k whose coefficient does not convert. |
| `ProbabilityTable.KernelOverflowsFrom1030` | CalculatorModelPremi.py:25-28 | For n >= 1030 the kernel raises OverflowError, for every q and a. |
| `ProbabilityTable.ColumnsAsWritten` | CalculatorModelPremi.py:42-49 | The column loop as Python runs it raises exactly when some C(n, k), k < n, does not convert to a float and some lambda is >= 0, so that the kernel is called. Otherwise its columns are exactly `LambdaColumns`. |
| `ProbabilityTable.TablePageAsWritten` | CalculatorModelPremi.py:148-158 | A page that shows a table always shows exactly `GenerateTable`'s, for instance with all lambdas negative at any n; for a non-empty lambda list whose coefficients convert, the page's table equals `GenerateTable`. It is empty exactly when no lambda is given (lines 148-150, where `generate_probability_table` is not called), when the parameters are invalid, or when the kernel is called (some lambda >= 0) on an n whose coefficients do not all convert (the handler at lines 155-158). |
| `ProbabilityTable.TablePageClearedFrom1030` | CalculatorModelPremi.py:152-158 | For valid n >= 1030 with some lambda >= 0, the page shows no table, although the exact table exists and that lambda's column sums to 1. |
| `DownloadName.Strip` | CalculatorModelPremi.py:201 | `str.strip()`: the result is an infix of the input with only whitespace outside it. It is empty exactly when the input is all whitespace, and otherwise starts and ends with a non-space. |
| `DownloadName.StripIdempotent` | CalculatorModelPremi.py:201 | Stripping twice is stripping once. |
| `DownloadName.DownloadName` | CalculatorModelPremi.py:200-206 | A blank base gives the default. Otherwise the result ends in ".csv", is its own strip, and is the stripped base if that already ends in ".csv", else the stripped base + ".csv". |
| `DownloadName.DownloadNameEndsWithCsv` | CalculatorModelPremi.py:200-206 | Given a default ending in ".csv", every download name ends in ".csv". |
| `DownloadName.NormalisedNameIsFixed` | CalculatorModelPremi.py:205-206 | A stripped name that ends in ".csv" is returned unchanged. |
| `DownloadName.DownloadNameIdempotent` | CalculatorModelPremi.py:200-206 | Normalising an already normalised name changes nothing, given a normalised default. |
| `Premium.WindowSumPastN` | premi.py:42-45 | Once d + ell > n, every remaining ell-term is skipped: the rest of the window contributes 0. |
| `Premium.UpperTailIsPmfSuffix` | premi.py:52-59 | T is 0 when u > n. Otherwise it is the binomial(n, q) mass at u..n. |
| `Premium.TailSumBounds` | premi.py:52-59 | With q in [0, 1] and p = 1 - q, every tail sum is in [0, 1]. |
| `Premium.Stage1Validation` | premi.py:132-137 | Accepts exactly when q in [0, 1], n >= 1 and d, u in [0, n]. Rejects for q first, exactly when q is out of range; then for n <= 0; then for d or u outside [0, n]. |
| `Premium.WindowMoments` | premi.py:38-63 | E and the second moment, computed with the formulas at lines 61-63: with probability a the ell-weighted binomial sums, plus the spread alpha (u - d) on the mass a T + (1 - a). A zero-width window, d == u, gives E == 0 and second moment 0. |
| `WindowKernel.MomentsUnderKernel` | premi.py:38-63 | Under the Stage-1 guards and p = 1 - q, for every a, E is the sum over k = 0..n of Pr{Wt = k} g(k) and the second moment is the sum of Pr{Wt = k} g(k)^2. Pr{Wt = k} is the table page's kernel (CalculatorModelPremi.py:25-30), and the payout g(k) is 0 for k <= d, k - d for d < k < u, and alpha (u - d) for k >= u. |
| `Premium.WindowedStatistics` | premi.py:33-74 | Stage 1. The mean is E[Wt(d,u)]. StdDev >= 0 and StdDev^2 == the absolute variance. When (u - 1) - d < 1 the ell-sums vanish and E == alpha (u - d) (a T + (1 - a)). When d == u, E and StdDev are 0. |
| `Premium.VarianceNonNegative` | premi.py:65-72 | With p = 1 - q, q in [0, 1] and a in [0, 1] (that is, lambda t >= 0), the Stage-1 variance is never negative over exact reals. It is a probability-weighted sum of squares. |
| `Premium.StdDevIsSquareRootOfVariance` | premi.py:65-72 | Under the same hypotheses, a in [0, 1] included, StdDev^2 is the variance itself: for such a, the absolute value only matters under floating-point rounding. |
| `Premium.NegativeVarianceAboveOne` | premi.py:65-72 | Without a <= 1 the exact variance can be negative: n = 1, d = 0, u = 1, q = 0, alpha = 1, a = 2 gives variance -2, mean -1, and StdDev^2 == 2 through the abs branch. |
| `Premium.RiskLoadedRate` | premi.py:78-91 | Stage 2 fails exactly when (1 - QT) n == 0, i.e. QT == 1 or n == 0. Otherwise rate * (1 - QT) n == (1 + rho + eta) E + StdDev. |
| `Premium.RateIsHomogeneous` | premi.py:88-90 | Scaling E and StdDev by c scales the rate by c. |
| `Premium.TotalPremium` | premi.py:94-98 | Stage 3 is 0 exactly when the rate, n or the price is 0. |
| `Premium.TotalPremiumIsLinear` | premi.py:94-98 | The total premium PI n P is 0 when P == 0. It is additive in P and in PI, and scaling P or PI by any c scales it by c. |
| `Premium.PremiumPipeline` | premi.py:129-210 | Stages 1, 2, 3 chained. It is rejected at Stage 1 exactly when the Stage-1 inputs are invalid, and the rejection carries exactly the error `Stage1Validation` reports. With valid inputs, a QT outside [0, 1] is refused before Stage 2 runs (lines 172-173), and QT == 1 halts Stage 2. Otherwise it quotes the three stage results, with p = 1 - q and n from Stage 1 reused in Stages 2 and 3. |

## Left out

- The Streamlit UI. This covers widgets, layout, messages (`st.warning`, `st.error`),
  `st.session_state`, stage navigation and the back and reset buttons. It is
  presentation, not computation. The pipeline is modelled as one pure function chaining
  the stages.
- `math.exp` and `math.sqrt`. They are function parameters, specified only as far as the
  lemmas need.
- The `OverflowError` and generic-exception branches around `math.exp`
  (CalculatorModelPremi.py:18-23). They depend on floating-point behaviour. For
  lambda >= 0 and t >= 0 the argument is non-positive, and `exp` of a non-positive float
  does not overflow.
- IEEE-754 rounding and the `math.isclose` checks. Reals are exact; the exact-sum lemmas
  take the place of the tolerance checks. The negative-variance warning path is modelled
  through the absolute value. `VarianceNonNegative` shows it cannot arise over exact reals
  when a is in [0, 1]; `NegativeVarianceAboveOne` shows it does arise when a > 1.
- StdDevIsSquareRootOfVariance: requires a in [0, 1]. The page gives lambda and t no lower
  bound (premi.py:119-120, and the guards at 132-137 do not check them), so lambda t < 0
  gives a > 1. There the exact variance can be negative and the abs branch at
  premi.py:67-70 is taken without any rounding (`NegativeVarianceAboveOne`).
- WindowedStatistics: computes exactly, for every n. Stage 1 multiplies C(n, d + ell) by
  ell or ell^2 and then by a float (premi.py:46-49), and C(n, i) by a float
  (premi.py:57-58). Python raises OverflowError when such an integer reaches
  2^1024 - 2^970; for n >= 1030 with u <= n/2 the tail reaches k = n/2, whose coefficient
  does (`FloatRange.MiddleCoefficientTooLarge`). Stage 1 has no handler, so the page
  stops with the error. Only the table page's use of C(n, k) is modelled as written.
  Python's float `**` also raises OverflowError instead of returning infinity:
  `alpha_val**2` (premi.py:63) and `E_Wt_d_u**2` (premi.py:65) raise once |alpha| or |E|
  exceeds about 1.34e154. Both are reachable: alpha has no bounds (premi.py:126), and
  lambda t < 0 gives a > 1 and so a large E. `math.exp` in `calculate_a` (premi.py:31,
  called at 139 without a handler) raises the same error when -lambda t exceeds about
  709.78. The model returns exact values in all of these cases.
- Other floating-point effects of the as-written models: `KernelAsWritten` and
  `TablePageAsWritten` model only the coefficient conversion; the products after it are
  exact.
- Parsing the comma-separated lambda string with `float()`
  (CalculatorModelPremi.py:134-146). The table takes an ordered sequence of
  (label, lambda) entries: the items of the source's dict, in its order. The dict's keys
  are distinct. The model does not require this, but distinctness holds for every input
  the page builds.
- pandas DataFrame mechanics, the `{:.6g}` formatting, CSV serialisation and the download
  button. The default file name embeds float formatting, so it is an opaque string
  parameter of `DownloadName`.
- `isinstance(n, int)` (CalculatorModelPremi.py:37). The model's n is an `int`, so only
  `n >= 0` is checked.

## Notes on the model

- Stage 1 does not require d <= u, because the source never validates it (premi.py:136).
  For d > u the ell-range is empty and the spread alpha (u - d) is negative, exactly as
  the source computes it.
- `WindowMoments` writes the second moment with (alpha (u - d))^2. The source writes
  alpha^2 (u - d)^2. `WindowMomentsAsWritten` proves the two agree.
- The labels are the keys of a dict built from the stripped input items
  (CalculatorModelPremi.py:142). Repeating the same text gives one column; two different
  texts of the same number, such as "0.1" and "0.10", give two. The model takes one column
  per entry of the input sequence, with the entries standing for the dict's items.

## Findings

| source | as written | input that shows it | evidently intended | confidence | as-written member | corrected member |
|---|---|---|---|---|---|---|
| CalculatorModelPremi.py:27-28 | `math.comb(n, k) * (q**k)` converts the exact coefficient to a float, which raises OverflowError from 2^1024 - 2^970 on; the page's handler (lines 155-158) then clears the table | n = 1030, k = 515, any q in [0, 1], any lambda >= 0 | exact probabilities for every n: the n widget sets only min_value=0 (CalculatorModelPremi.py:82-88), and the page states the formula for every n (lines 66-75) | not executed | `ProbabilityTable.TablePageClearedFrom1030` | `ProbabilityTable.GenerateTable` |
