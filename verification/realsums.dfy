/**
 Exact real arithmetic used by both components: natural powers (Python's `x**k` on a
 float base and a non-negative integer exponent, without rounding) and finite sums of
 sequences of reals.
 */
module RealSums {

  function Pow(x: real, k: nat): real
  {
    if k == 0 then 1.0 else x * Pow(x, k - 1)
  }

  lemma {:induction false} PowBounds(x: real, k: nat)
    requires 0.0 <= x
    ensures 0.0 <= Pow(x, k)
    ensures x <= 1.0 ==> Pow(x, k) <= 1.0
  {
    if k > 0 {
      PowBounds(x, k - 1);
      var r := Pow(x, k - 1);
      assert 0.0 <= x * r;
      if x <= 1.0 {
        assert x * r <= 1.0 * r;
      }
    }
  }

  lemma PowSucc(x: real, k: nat)
    ensures Pow(x, k + 1) == x * Pow(x, k)
  {
  }

  function Abs(x: real): (r: real)
    ensures 0.0 <= r && (r == x || r == -x)
  {
    if x < 0.0 then -x else x
  }

  lemma MulNonNegative(x: real, y: real)
    requires 0.0 <= x && 0.0 <= y
    ensures 0.0 <= x * y
  {
  }

  /** The sum of a sequence, first element first. */
  function Sum(s: seq<real>): real
  {
    if |s| == 0 then 0.0 else s[0] + Sum(s[1..])
  }

  lemma {:induction false} SumConcat(a: seq<real>, b: seq<real>)
    ensures Sum(a + b) == Sum(a) + Sum(b)
  {
    if |a| > 0 {
      assert (a + b)[1..] == a[1..] + b;
      SumConcat(a[1..], b);
    } else {
      assert a + b == b;
    }
  }

  /** Pointwise linear combination x * a + y * b of two sequences of equal length. */
  function Combine(x: real, a: seq<real>, y: real, b: seq<real>): seq<real>
    requires |a| == |b|
  {
    seq(|a|, i requires 0 <= i < |a| => x * a[i] + y * b[i])
  }

  /** Sum is linear: the sum of x * a + y * b is x * Sum(a) + y * Sum(b). */
  lemma SumCombine(x: real, a: seq<real>, y: real, b: seq<real>)
    requires |a| == |b|
    ensures Sum(Combine(x, a, y, b)) == x * Sum(a) + y * Sum(b)
  {
    assert Combine(x, a, y, b) == Add(Scale(x, a), Scale(y, b));
    SumAdd(Scale(x, a), Scale(y, b));
    SumScale(x, a);
    SumScale(y, b);
  }

  function Scale(x: real, a: seq<real>): (r: seq<real>)
    ensures |r| == |a|
  {
    seq(|a|, i requires 0 <= i < |a| => x * a[i])
  }

  function Add(a: seq<real>, b: seq<real>): (r: seq<real>)
    requires |a| == |b|
    ensures |r| == |a|
  {
    seq(|a|, i requires 0 <= i < |a| => a[i] + b[i])
  }

  lemma {:induction false} SumScale(x: real, a: seq<real>)
    ensures Sum(Scale(x, a)) == x * Sum(a)
  {
    if |a| > 0 {
      forall i | 0 <= i < |a| - 1
        ensures Scale(x, a)[1..][i] == Scale(x, a[1..])[i]
      {
        assert a[1..][i] == a[i + 1];
      }
      assert Scale(x, a)[1..] == Scale(x, a[1..]);
      SumScale(x, a[1..]);
    }
  }

  lemma {:induction false} SumAdd(a: seq<real>, b: seq<real>)
    requires |a| == |b|
    ensures Sum(Add(a, b)) == Sum(a) + Sum(b)
  {
    if |a| > 0 {
      assert Add(a, b)[1..] == Add(a[1..], b[1..]);
      SumAdd(a[1..], b[1..]);
    }
  }

  ghost predicate AllNonNegative(s: seq<real>)
  {
    forall i :: 0 <= i < |s| ==> 0.0 <= s[i]
  }

  /** In a sequence of non-negative reals every entry, and every suffix sum, is at most the total. */
  lemma {:induction false} NonNegativeSum(s: seq<real>)
    requires AllNonNegative(s)
    ensures 0.0 <= Sum(s)
    ensures forall i :: 0 <= i < |s| ==> s[i] <= Sum(s)
    ensures forall j :: 0 <= j <= |s| ==> Sum(s[j..]) <= Sum(s)
  {
    if |s| > 0 {
      NonNegativeSum(s[1..]);
      forall j | 1 <= j <= |s|
        ensures Sum(s[j..]) <= Sum(s)
      {
        assert s[1..][j - 1..] == s[j..];
      }
      assert s[0..] == s;
    }
  }

  /** A sequence of n zeros. */
  function Zeros(n: nat): (z: seq<real>)
    ensures |z| == n
  {
    seq(n, _ => 0.0)
  }

  lemma {:induction false} SumZeros(n: nat)
    ensures Sum(Zeros(n)) == 0.0
  {
    if n > 0 {
      assert Zeros(n)[1..] == Zeros(n - 1);
      SumZeros(n - 1);
    }
  }
}
