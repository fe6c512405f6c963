/**
 The range of Python's int-to-float conversion, and where binomial coefficients leave it.

 Multiplying a Python int by a float first converts the int to a double. The conversion
 rounds to 53 significant bits, ties to even, and raises OverflowError when the rounded
 value reaches 2^1024. The largest double is 2^1024 - 2^971, so a non-negative integer
 converts exactly when it lies below the midpoint 2^1024 - 2^970: the midpoint itself
 rounds up, because the largest double has an odd significand.

 The main result: the middle coefficient C(n, n / 2) is at least 2^1024 for every
 n >= 1030, so no code path that converts it to a float survives such an n.
 */
module FloatRange {
  import opened Combinatorics

  function Pow2(e: nat): (r: nat)
    ensures r >= 1
  {
    if e == 0 then 1 else 2 * Pow2(e - 1)
  }

  /** The smallest non-negative integer whose conversion to a double overflows: 2^1024 - 2^970. */
  function ConversionLimit(): int
  {
    179769313486231580793728971405303415079934132710037826936173778980444968292764750946649017977587207096330286416692887910946555547851940402630657488671505820681908902000708383676273854845817711531764475730270069855571366959622842914819860834936475292719074168444365510704342711559699508093042880177904174497792
  }

  /** `float(c)` succeeds for a non-negative integer c. */
  predicate ConvertsToFloat(c: nat)
  {
    c < ConversionLimit()
  }

  /** Every C(n, k) with k < n converts: the coefficients the probability kernel converts. */
  predicate CoefficientsConvert(n: nat)
  {
    forall k :: 0 <= k < n ==> ConvertsToFloat(Choose(n, k))
  }

  lemma {:induction false} Pow2Add(x: nat, y: nat)
    ensures Pow2(x + y) == Pow2(x) * Pow2(y)
    decreases y
  {
    if y > 0 {
      Pow2Add(x, y - 1);
      assert Pow2(x + y) == 2 * Pow2(x + y - 1);
    }
  }

  lemma Pow2Split(x: nat, y: nat)
    requires y <= x
    ensures Pow2(x) == Pow2(y) * Pow2(x - y)
  {
    Pow2Add(y, x - y);
  }

  /** y + 2048 <= 2^y from y = 12 on. */
  lemma {:induction false} LinearBelowPow2(y: nat)
    requires y >= 12
    ensures y + 2048 <= Pow2(y)
    decreases y
  {
    if y == 12 {
      assert Pow2(12) == 4096;
    } else {
      LinearBelowPow2(y - 1);
    }
  }

  /** The ratio of consecutive middle coefficients: (m + 1) C(2m + 2, m + 1) == 2 (2m + 1) C(2m, m). */
  lemma CentralStep(m: nat)
    ensures (m + 1) * Choose(2 * m + 2, m + 1) == 2 * (2 * m + 1) * Choose(2 * m, m)
  {
    ChooseAbsorb(2 * m + 2, m + 1);
    ChooseAbsorb(2 * m + 1, m + 1);
    ChooseSymmetric(2 * m + 1, m + 1);
    StepAlgebra(m, Choose(2 * m, m), Choose(2 * m + 1, m), Choose(2 * m + 2, m + 1));
  }

  lemma StepAlgebra(m: int, c: int, b: int, c': int)
    requires (m + 1) * c' == (2 * m + 2) * b
    requires (m + 1) * b == (2 * m + 1) * c
    ensures (m + 1) * c' == 2 * (2 * m + 1) * c
  {
    assert (2 * m + 2) * b == 2 * ((m + 1) * b);
  }

  /** The middle coefficient squared grows like 16^m / m: 4m C(2m, m)^2 >= 2^(4m). */
  lemma {:induction false} CentralBound(m: nat)
    requires m >= 1
    ensures 4 * m * (Choose(2 * m, m) * Choose(2 * m, m)) >= Pow2(4 * m)
  {
    if m == 1 {
      assert Choose(2, 1) == 2;
      assert Pow2(4) == 16;
    } else {
      var j := m - 1;
      CentralBound(j);
      CentralStep(j);
      assert 2 * j + 2 == 2 * m;
      Pow2Add(4 * j, 4);
      assert Pow2(4) == 16;
      StepInequality(j, Choose(2 * j, j), Choose(2 * j + 2, j + 1), Pow2(4 * j));
    }
  }

  lemma StepInequality(j: nat, c: nat, c': nat, p: nat)
    requires j >= 1
    requires 4 * j * (c * c) >= p
    requires (j + 1) * c' == 2 * (2 * j + 1) * c
    ensures 4 * (j + 1) * (c' * c') >= 16 * p
  {
    var k, f := j + 1, 2 * (2 * j + 1);
    SquareRelation(k, c', f, c);
    OddSquare(j);
    MulMono(f * f, 16 * (j * k), c * c);
    Regroup(j, k, c * c);
    MulMono(4 * j * (c * c), p, 4 * k);
    Cancel(k, c' * c', p);
  }

  lemma SquareRelation(k: int, x: int, f: int, y: int)
    requires k * x == f * y
    ensures (k * k) * (x * x) == (f * f) * (y * y)
  {
    SquareOfProduct(k, x);
    SquareOfProduct(f, y);
  }

  lemma Cancel(k: int, b: int, p: int)
    requires k > 0 && (k * k) * b >= p * (4 * k)
    ensures 4 * k * b >= 16 * p
  {
    assert k * (k * b) >= k * (4 * p);
    CancelPositive(k, k * b, 4 * p);
  }

  lemma OddSquare(j: int)
    ensures (2 * (2 * j + 1)) * (2 * (2 * j + 1)) >= 16 * (j * (j + 1))
  {
  }

  lemma Regroup(j: int, k: int, x: int)
    ensures 16 * (j * k) * x == (4 * j * x) * (4 * k)
  {
  }

  lemma SquareOfProduct(x: int, y: int)
    ensures (x * y) * (x * y) == (x * x) * (y * y)
  {
  }

  lemma MulMono(x: int, y: int, z: int)
    requires x >= y && z >= 0
    ensures x * z >= y * z
  {
  }

  lemma CancelPositive(k: int, x: int, y: int)
    requires k > 0 && k * x >= k * y
    ensures x >= y
  {
  }

  lemma SquareMono(x: nat, y: nat)
    requires x < y
    ensures x * x < y * y
  {
    MulMono(y, x, x);
    MulMono(y, x, y);
  }

  /** If x c^2 >= b^2 r with 1 <= x <= r, then c >= b. */
  lemma RootBound(c: nat, b: nat, x: nat, r: nat, b2: nat, big: nat)
    requires 1 <= x <= r
    requires b2 == b * b && big == b2 * r
    requires x * (c * c) >= big
    ensures c >= b
  {
    if c < b {
      SquareMono(c, b);
      MulMono(b * b, c * c + 1, x);
      MulMono(r, x, b * b);
    }
  }

  /** C(2m, m) >= 2^h once 4m <= 2^(4m - 2h). */
  lemma CentralAtLeast(m: nat, h: nat)
    requires 1 <= m && 2 * h <= 4 * m <= Pow2(4 * m - 2 * h)
    ensures Choose(2 * m, m) >= Pow2(h)
  {
    CentralBound(m);
    Pow2Split(2 * h, h);
    Pow2Split(4 * m, 2 * h);
    RootBound(Choose(2 * m, m), Pow2(h), 4 * m, Pow2(4 * m - 2 * h), Pow2(2 * h), Pow2(4 * m));
  }

  /** C(n, n / 2) >= 2^h for odd n as well, since C(2m + 1, m) >= C(2m, m). */
  lemma MiddleAtLeast(n: nat, h: nat)
    requires 2 <= n && 2 * h <= 4 * (n / 2) <= Pow2(4 * (n / 2) - 2 * h)
    ensures Choose(n, n / 2) >= Pow2(h)
  {
    var m := n / 2;
    CentralAtLeast(m, h);
    if n % 2 == 1 {
      ChoosePascal(2 * m, m);
      assert n == 2 * m + 1;
    }
  }

  /** Powers of two by repeated squaring, for the two exponents the limit uses. */
  lemma Pow2Values()
    ensures Pow2(1024) == 179769313486231590772930519078902473361797697894230657273430081157732675805500963132708477322407536021120113879871393357658789768814416622492847430639474124377767893424865485276302219601246094119453082952085005768838150682342462881473913110540827237163350510684586298239947245938479716304835356329624224137216
    ensures Pow2(970) == 9979201547673599058281863565184192830337256302177287707512736212186059459344820328924789827463178505446712234220962476219862189941967968303695858991424157101600028364755428382587688607221814935913266783722719619966654052275604351944444276342240220787535604534378780208211792476151720049639424
  {
    assert Pow2(1) == 2;
    Pow2Add(1, 1);
    assert Pow2(2) == 4;
    Pow2Add(2, 2);
    assert Pow2(4) == 16;
    Pow2Add(4, 4);
    assert Pow2(8) == 256;
    Pow2Add(8, 8);
    assert Pow2(16) == 65536;
    Pow2Add(16, 16);
    assert Pow2(32) == 4294967296;
    Pow2Add(32, 32);
    assert Pow2(64) == 18446744073709551616;
    Pow2Add(64, 64);
    assert Pow2(128) == 340282366920938463463374607431768211456;
    Pow2Add(128, 128);
    assert Pow2(256) == 115792089237316195423570985008687907853269984665640564039457584007913129639936;
    Pow2Add(256, 256);
    assert Pow2(512) == 13407807929942597099574024998205846127479365820592393377723561443721764030073546976801874298166903427690031858186486050853753882811946569946433649006084096;
    Pow2Add(512, 512);
    assert Pow2(1024) == 179769313486231590772930519078902473361797697894230657273430081157732675805500963132708477322407536021120113879871393357658789768814416622492847430639474124377767893424865485276302219601246094119453082952085005768838150682342462881473913110540827237163350510684586298239947245938479716304835356329624224137216;
    Pow2Add(512, 256);
    assert Pow2(768) == 1552518092300708935148979488462502555256886017116696611139052038026050952686376886330878408828646477950487730697131073206171580044114814391444287275041181139204454976020849905550265285631598444825262999193716468750892846853816057856;
    Pow2Add(768, 128);
    assert Pow2(896) == 528294531135665246352339784916516606518847326036121522127960709026673902556724859474417255887657187894674394993257128678882347559502685537250538978462939576908386683999005084168731517676426441053024232908211188404148028292751561738838396898767036476489538580897737998336;
    Pow2Add(896, 64);
    assert Pow2(960) == 9745314011399999080353382387875188310876226857595007526867906457212948690766426102465615065882010259225304916231408668183459169865203094046577987296312653419531277699956473029870789655490053648352799593479218378873685597925394874945746363615468965612827738803104277547081828589991914110976;
    Pow2Add(960, 8);
    assert Pow2(968) == 2494800386918399764570465891296048207584314075544321926878184053046514864836205082231197456865794626361678058555240619054965547485491992075923964747856039275400007091188857095646922151805453733978316695930679904991663513068901087986111069085560055196883901133594695052052948119037930012409856;
    Pow2Add(968, 2);
    assert Pow2(970) == 9979201547673599058281863565184192830337256302177287707512736212186059459344820328924789827463178505446712234220962476219862189941967968303695858991424157101600028364755428382587688607221814935913266783722719619966654052275604351944444276342240220787535604534378780208211792476151720049639424;
  }

  /** The limit is 2^1024 - 2^970, below 2^1024. */
  lemma LimitBelowPow2()
    ensures ConversionLimit() == Pow2(1024) - Pow2(970)
    ensures ConversionLimit() < Pow2(1024)
  {
    Pow2Values();
  }

  /** From n = 1030 on, the middle coefficient C(n, n / 2) does not convert to a float. */
  lemma MiddleCoefficientTooLarge(n: nat)
    requires n >= 1030
    ensures n / 2 < n && !ConvertsToFloat(Choose(n, n / 2))
  {
    LinearBelowPow2(4 * (n / 2) - 2048);
    MiddleAtLeast(n, 1024);
    LimitBelowPow2();
  }

  /** Hence from n = 1030 on, some coefficient below n fails to convert. */
  lemma CoefficientsOverflowFrom1030(n: nat)
    requires n >= 1030
    ensures !CoefficientsConvert(n)
  {
    MiddleCoefficientTooLarge(n);
  }
}
