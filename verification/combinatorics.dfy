/**
 Exact binomial coefficients.

 `Choose` is the reference definition (Pascal's rule, zero outside `0 <= k <= n`);
 `Combinations` is the iterative multiplicative algorithm of `combinations` in
 premi.py, proved to compute `Choose`. The probability kernel's use of
 `math.comb` is modelled by the same `Choose`.
 */
module Combinatorics {

  /** C(n, k) by Pascal's rule; 0 when k is out of range, including every k when n < 0. */
  function Choose(n: int, k: int): nat
    decreases n
  {
    if k < 0 || k > n then 0
    else if k == 0 || k == n then 1
    else Choose(n - 1, k - 1) + Choose(n - 1, k)
  }

  function Fact(n: nat): (r: nat)
    ensures r >= 1
  {
    if n == 0 then 1 else n * Fact(n - 1)
  }

  /** Pascal's rule holds at every k, including the edges k = 0 and k = n + 1. */
  lemma ChoosePascal(n: nat, k: int)
    ensures Choose(n + 1, k) == Choose(n, k) + Choose(n, k - 1)
  {
  }

  /** C(n, k) == C(n, n - k) for every n and k. */
  lemma {:induction false} ChooseSymmetric(n: int, k: int)
    ensures Choose(n, k) == Choose(n, n - k)
    decreases n
  {
    if k < 0 || k > n || k == 0 || k == n {
    } else {
      ChooseSymmetric(n - 1, k - 1);
      ChooseSymmetric(n - 1, k);
    }
  }

  /** Absorption: k * C(n, k) == n * C(n - 1, k - 1). */
  lemma {:induction false} ChooseAbsorb(n: int, k: int)
    requires n >= 1 && k >= 1
    ensures k * Choose(n, k) == n * Choose(n - 1, k - 1)
    decreases n
  {
    if k > n {
      assert Choose(n, k) == 0 && Choose(n - 1, k - 1) == 0;
    } else if k == n {
      assert Choose(n, k) == 1 && Choose(n - 1, k - 1) == 1;
    } else if k == 1 {
      ChooseOne(n);
      assert Choose(n - 1, 0) == 1;
    } else {
      ChooseAbsorb(n - 1, k - 1);
      ChooseAbsorb(n - 1, k);
      var a := Choose(n - 1, k - 1);
      var b := Choose(n - 1, k);
      var x := Choose(n - 2, k - 2);
      var y := Choose(n - 2, k - 1);
      assert Choose(n, k) == a + b;
      assert a == x + y;
      assert (k - 1) * a == (n - 1) * x;
      assert k * b == (n - 1) * y;
      MulAdd(k, a, b);
      MulAdd(n - 1, x, y);
      MulSucc(k - 1, a);
      MulSucc(n - 1, a);
      assert k * (a + b) == n * a;
    }
  }

  /** (m + 1) * a == m * a + a. */
  lemma MulSucc(m: int, a: int)
    ensures (m + 1) * a == m * a + a
  {
  }

  lemma {:induction false} ChooseOne(n: int)
    requires n >= 1
    ensures Choose(n, 1) == n
    decreases n
  {
    if n > 1 {
      ChooseOne(n - 1);
    }
  }

  /**
   One step of the multiplicative recurrence: C(n, i) * (n - i) == (i + 1) * C(n, i + 1),
   so the division by i + 1 in `Combinations` is exact.
   */
  lemma ChooseStep(n: int, i: int)
    requires 0 <= i < n
    ensures Choose(n, i) * (n - i) == (i + 1) * Choose(n, i + 1)
  {
    var d := Choose(n, i + 1);
    var c := Choose(n - 1, i);
    ChooseAbsorb(n, i + 1);
    assert (i + 1) * d == n * c;
    if i > 0 {
      var a := Choose(n, i);
      var b := Choose(n - 1, i - 1);
      assert a == b + c;
      ChooseAbsorb(n, i);
      assert i * a == n * b;
      MulSub(a, n, i);
      MulAdd(n, b, c);
      assert a * (n - i) == n * c;
    }
  }

  lemma MulSub(a: int, x: int, y: int)
    ensures a * (x - y) == x * a - y * a
  {
  }

  lemma MulAdd(x: int, b: int, c: int)
    ensures x * (b + c) == x * b + x * c
  {
  }

  /** C(n, k) * k! * (n - k)! == n!, i.e. C(n, k) == n! / (k! (n - k)!). */
  lemma {:induction false} ChooseFactorial(n: nat, k: nat)
    requires k <= n
    ensures Choose(n, k) * Fact(k) * Fact(n - k) == Fact(n)
    decreases k
  {
    if k > 0 {
      ChooseFactorial(n, k - 1);
      ChooseStep(n, k - 1);
      var c := Choose(n, k - 1);
      var c' := Choose(n, k);
      var fk := Fact(k - 1);
      var fr := Fact(n - k);
      assert c * (n - k + 1) == k * c';
      assert Fact(k) == k * fk;
      assert Fact(n - (k - 1)) == (n - k + 1) * fr;
      assert c * fk * ((n - k + 1) * fr) == Fact(n);
      FactorStep(c, c', k, n - k + 1, fk, fr);
    }
  }

  /** Regrouping used by ChooseFactorial: if c * m == k * c' then c' * (k * f) * g == c * f * (m * g). */
  lemma FactorStep(c: int, c': int, k: int, m: int, f: int, g: int)
    requires c * m == k * c'
    ensures c' * (k * f) * g == c * f * (m * g)
  {
    calc {
      c' * (k * f) * g;
      (k * c') * f * g;
      (c * m) * f * g;
      c * f * (m * g);
    }
  }

  lemma DivExact(x: int, d: int)
    requires d > 0
    ensures (d * x) / d == x
  {
    var q := (d * x) / d;
    var r := (d * x) % d;
    assert d * x == d * q + r && 0 <= r < d;
    var e := x - q;
    assert d * e == r by {
      MulSub(d, x, q);
    }
    MulSign(d, e);
  }

  lemma MulSign(d: int, e: int)
    requires d > 0
    ensures e >= 1 ==> d * e >= d
    ensures e <= -1 ==> d * e <= -d
  {
  }

  /**
   The iterative algorithm: out-of-range k gives 0, k in {0, n} gives 1, otherwise
   the loop runs on min(k, n - k) with exact floor division at every step.
   */
  method Combinations(n: int, k: int) returns (res: int)
    ensures res == Choose(n, k)
    ensures k < 0 || k > n ==> res == 0
    ensures 0 <= n && (k == 0 || k == n) ==> res == 1
    ensures 0 <= k <= n ==> res * Fact(k) * Fact(n - k) == Fact(n)
  {
    if k < 0 || k > n {
      return 0;
    }
    if 0 <= k <= n {
      ChooseFactorial(n, k);
    }
    if k == 0 || k == n {
      return 1;
    }
    // here 0 < k < n, so n >= 2 and Dafny's division agrees with Python's floor division
    var m := k;
    if k > n / 2 {
      m := n - k;
    }
    ChooseSymmetric(n, k);
    res := 1;
    var i := 0;
    while i < m
      invariant 0 <= i <= m
      invariant res == Choose(n, i)
    {
      ChooseStep(n, i);
      var prod := res * (n - i);
      DivExact(Choose(n, i + 1), i + 1);
      res := prod / (i + 1);
      i := i + 1;
    }
  }
}
