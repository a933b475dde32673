/** The z-score anomaly detector, in exact arithmetic. */
module Anomaly {
  datatype AnomalyResult = AnomalyResult(score: real, isAnomaly: bool, threshold: real)

  function Sum(v: seq<real>): real {
    if v == [] then 0.0 else Sum(v[..|v| - 1]) + v[|v| - 1]
  }

  function Mean(v: seq<real>): real
    requires v != []
  {
    Sum(v) / |v| as real
  }

  /** The sum of squared deviations from `m`. */
  function Deviation(v: seq<real>, m: real): real {
    if v == [] then 0.0 else Deviation(v[..|v| - 1], m) + (v[|v| - 1] - m) * (v[|v| - 1] - m)
  }

  function Variance(v: seq<real>): real
    requires v != []
  {
    Deviation(v, Mean(v)) / |v| as real
  }

  function Abs(x: real): real {
    if x < 0.0 then -x else x
  }

  /** `sqrt` takes exact square roots. */
  ghost predicate ExactRoot(sqrt: real -> real) {
    forall x: real :: x >= 0.0 ==> sqrt(x) >= 0.0 && sqrt(x) * sqrt(x) == x
  }

  /** Rounds a non-negative number to two decimals, halves up. */
  function Round2(x: real): real {
    (x * 100.0 + 0.5).Floor as real / 100.0
  }

  /** The unrounded score of the latest value. */
  function Score(v: seq<real>, sqrt: real -> real): real
    requires v != []
  {
    var stddev := sqrt(Variance(v));
    if stddev > 0.0 then Abs(v[|v| - 1] - Mean(v)) / stddev else 0.0
  }

  method AnomalyScore(values: seq<real>, sqrt: real -> real) returns (r: AnomalyResult)
    ensures r == if |values| < 3 then AnomalyResult(0.0, false, 3.0)
                 else AnomalyResult(Round2(Score(values, sqrt)), Score(values, sqrt) > 3.0, 3.0)
  {
    if |values| < 3 {
      return AnomalyResult(0.0, false, 3.0);
    }
    var mean := 0.0;
    for i := 0 to |values|
      invariant mean == Sum(values[..i])
    {
      assert values[..i + 1][..i] == values[..i];
      mean := mean + values[i];
    }
    assert values[..|values|] == values;
    mean := mean / |values| as real;
    var stddev := 0.0;
    for i := 0 to |values|
      invariant stddev == Deviation(values[..i], mean)
    {
      assert values[..i + 1][..i] == values[..i];
      stddev := stddev + (values[i] - mean) * (values[i] - mean);
    }
    stddev := sqrt(stddev / |values| as real);
    var latest := values[|values| - 1];
    var score := 0.0;
    if stddev > 0.0 {
      score := Abs(latest - mean) / stddev;
    }
    return AnomalyResult(Round2(score), score > 3.0, 3.0);
  }

  // ------------------------------------------------------ Samuelson's inequality

  // Products are named, so that each lemma about them is linear in the names.

  lemma {:induction false} Positive(x: real, y: real, xy: real)
    requires x > 0.0 && y > 0.0 && xy == x * y
    ensures xy > 0.0
  {
  }

  lemma {:induction false} Square(x: real, xx: real)
    requires xx == x * x
    ensures xx >= 0.0
    ensures x != 0.0 ==> xx > 0.0
  {
    if x != 0.0 {
      var y := if x > 0.0 then x else -x;
      Positive(y, y, y * y);
      assert y * y == x * x;
    }
  }

  /** A positive factor can be cancelled. */
  lemma {:induction false} Unscale(k: real, x: real, y: real, kx: real, ky: real)
    requires k > 0.0 && kx == k * x && ky == k * y && kx <= ky
    ensures x <= y
  {
    var d := k * (x - y);
    assert d == kx - ky;
    if x > y {
      Positive(k, x - y, d);
    }
  }

  lemma {:induction false} Quotient(x: real, n: real, q: real)
    requires n > 0.0 && q == x / n
    ensures n * q == x
  {
  }

  /** The sum of the deviations from `m`, with their signs. */
  function Excess(v: seq<real>, m: real): real {
    if v == [] then 0.0 else Excess(v[..|v| - 1], m) + (v[|v| - 1] - m)
  }

  lemma {:induction false} ExcessIsSum(v: seq<real>, m: real)
    ensures Excess(v, m) == Sum(v) - |v| as real * m
  {
    if v != [] {
      var k := (|v| - 1) as real;
      ExcessIsSum(v[..|v| - 1], m);
      assert |v| as real == k + 1.0;
      assert (k + 1.0) * m == k * m + m;
    }
  }

  lemma {:induction false} DeviationNonNegative(v: seq<real>, m: real)
    ensures Deviation(v, m) >= 0.0
  {
    if v != [] {
      var d := v[|v| - 1] - m;
      DeviationNonNegative(v[..|v| - 1], m);
      Square(d, d * d);
    }
  }

  /** The cross term of Cauchy-Schwarz: 2sa <= q + k*a^2 when s^2 <= k*q. */
  lemma {:induction false} CrossTerm(k: real, s: real, q: real, a: real, ss: real, kq: real, sa: real, kaa: real)
    requires k >= 0.0 && q >= 0.0
    requires ss == s * s && kq == k * q && sa == s * a && kaa == k * (a * a)
    requires ss <= kq
    ensures 2.0 * sa <= q + kaa
  {
    if k == 0.0 {
      Square(s, ss);
      assert kq == 0.0 && kaa == 0.0;
      assert s == 0.0;
    } else {
      var d := s - k * a;
      Square(d, d * d);
      assert d * d == ss - 2.0 * (k * sa) + k * kaa by {
        assert d * d == s * s - 2.0 * (k * (s * a)) + k * (k * (a * a));
      }
      var left, right := 2.0 * sa, q + kaa;
      assert k * right == kq + k * kaa;
      assert k * left == 2.0 * (k * sa);
      Unscale(k, left, right, k * left, k * right);
    }
  }

  lemma {:induction false} CauchyStep(k: real, s: real, q: real, a: real, left: real, right: real)
    requires k >= 0.0 && q >= 0.0 && s * s <= k * q
    requires left == (s + a) * (s + a) && right == (k + 1.0) * (q + a * a)
    ensures left <= right
  {
    var ss, kq, sa, aa := s * s, k * q, s * a, a * a;
    var kaa := k * aa;
    CrossTerm(k, s, q, a, ss, kq, sa, kaa);
    assert left == ss + 2.0 * sa + aa;
    assert right == kq + q + kaa + aa;
  }

  /** The squared sum of n deviations is at most n times the sum of their squares. */
  lemma {:induction false} CauchySchwarz(v: seq<real>, m: real)
    ensures Excess(v, m) * Excess(v, m) <= |v| as real * Deviation(v, m)
  {
    if v != [] {
      var u, a := v[..|v| - 1], v[|v| - 1] - m;
      CauchySchwarz(u, m);
      DeviationNonNegative(u, m);
      assert |v| as real == |u| as real + 1.0;
      CauchyStep(|u| as real, Excess(u, m), Deviation(u, m), a,
                 Excess(v, m) * Excess(v, m), |v| as real * Deviation(v, m));
    }
  }

  /** The deviations from the mean cancel: those of all but the last value add up to minus the last. */
  lemma {:induction false} ExcessOfRest(v: seq<real>)
    requires v != []
    ensures Excess(v[..|v| - 1], Mean(v)) == Mean(v) - v[|v| - 1]
  {
    ExcessIsSum(v, Mean(v));
    Quotient(Sum(v), |v| as real, Mean(v));
  }

  /** Of n values, the square of the last one's distance from the mean is at most n-1 variances. */
  lemma {:induction false} Samuelson(v: seq<real>)
    requires v != []
    ensures (v[|v| - 1] - Mean(v)) * (v[|v| - 1] - Mean(v)) <= (|v| - 1) as real * Variance(v)
  {
    var m := Mean(v);
    var u, d := v[..|v| - 1], v[|v| - 1] - m;
    var e, k, s := Excess(u, m), |u| as real, Deviation(v, m);
    CauchySchwarz(u, m);
    ExcessOfRest(v);
    var dd, ee := d * d, e * e;
    assert ee == dd;
    assert Deviation(u, m) == s - dd;
    // Hence d^2 <= (n-1) * (s - d^2), where s is the sum of all squared deviations.
    ShareOut(k, dd, s, Variance(v));
  }

  lemma {:induction false} ShareOut(k: real, x: real, s: real, q: real)
    requires k >= 0.0 && x <= k * (s - x) && q == s / (k + 1.0)
    ensures x <= k * q
  {
    var n := k + 1.0;
    Quotient(s, n, q);
    var ks, kx, kq := k * s, k * x, k * q;
    assert k * (s - x) == ks - kx;
    assert n * x == kx + x;
    assert n * kq == ks by {
      assert n * (k * q) == k * (n * q);
    }
    Unscale(n, x, kq, n * x, n * kq);
  }

  lemma {:induction false} VarianceNonNegative(v: seq<real>)
    requires v != []
    ensures Variance(v) >= 0.0
  {
    var n, s := |v| as real, Deviation(v, Mean(v));
    DeviationNonNegative(v, Mean(v));
    Quotient(s, n, Variance(v));
    Unscale(n, 0.0, Variance(v), 0.0, s);
  }

  lemma {:induction false} RatioBound(a: real, s: real, k: real, aa: real, ss: real, kss: real, r: real)
    requires a >= 0.0 && s > 0.0 && aa == a * a && ss == s * s && kss == k * ss && aa <= kss
    requires r == a / s
    ensures r >= 0.0 && r * r <= k
  {
    Quotient(a, s, r);
    Unscale(s, 0.0, r, 0.0, a);
    Square(s, ss);
    var rr := r * r;
    assert ss * rr == aa by {
      assert (s * s) * (r * r) == (s * r) * (s * r);
    }
    assert ss * k == kss;
    Unscale(ss, rr, k, aa, kss);
  }

  /** The squared score of the latest of n values is at most n-1. */
  lemma {:induction false} ScoreBound(v: seq<real>, sqrt: real -> real)
    requires v != [] && ExactRoot(sqrt)
    ensures Score(v, sqrt) >= 0.0
    ensures Score(v, sqrt) * Score(v, sqrt) <= (|v| - 1) as real
  {
    var d, stddev := v[|v| - 1] - Mean(v), sqrt(Variance(v));
    VarianceNonNegative(v);
    Samuelson(v);
    if stddev > 0.0 {
      assert Abs(d) * Abs(d) == d * d;
      RatioBound(Abs(d), stddev, (|v| - 1) as real, d * d, Variance(v), (|v| - 1) as real * Variance(v), Score(v, sqrt));
    }
  }

  /** An anomaly needs at least eleven values. */
  lemma {:induction false} AnomalyNeedsEleven(v: seq<real>, sqrt: real -> real)
    requires v != [] && ExactRoot(sqrt) && Score(v, sqrt) > 3.0
    ensures |v| >= 11
  {
    ScoreBound(v, sqrt);
    var s := Score(v, sqrt);
    var d := s - 3.0;
    Positive(d, d, d * d);
    var ss := s * s;
    assert d * d == ss - 6.0 * s + 9.0;
  }

  // --------------------------------------------------------- when bounds are met

  lemma {:induction false} QuotientIs(x: real, n: real, q: real)
    requires n > 0.0 && n * q == x
    ensures x / n == q
  {
  }

  /** Mean and variance of n-1 equal values `x` and a last value `y`, for e = (y - x) / n. */
  lemma {:induction false} OneOffMoments(n: nat, x: real, y: real, e: real)
    requires n >= 2 && n as real * e == y - x
    ensures var v, k := seq(n - 1, i => x) + [y], (n - 1) as real;
            && Mean(v) == x + e && y - Mean(v) == k * e
            && Variance(v) == k * (e * e)
  {
    var v, k, nn := seq(n - 1, i => x) + [y], (n - 1) as real, n as real;
    assert v[..n - 1] == seq(n - 1, i => x);
    SumOfEqual(x, n - 1);
    assert nn == k + 1.0;
    var kx, ke := k * x, k * e;
    assert nn * e == ke + e;
    assert nn * (x + e) == kx + x + (ke + e);
    QuotientIs(Sum(v), nn, x + e);
    DeviationOfEqual(x, n - 1, x + e);
    var ee := e * e;
    assert (x - (x + e)) * (x - (x + e)) == ee;
    var kee := k * ee;
    assert (y - (x + e)) * (y - (x + e)) == k * kee by {
      assert y - (x + e) == ke;
      assert ke * ke == k * (k * (e * e));
    }
    assert nn * kee == k * kee + kee;
    QuotientIs(Deviation(v, x + e), nn, kee);
  }

  lemma {:induction false} RatioExact(a: real, s: real, k: real, aa: real, ss: real, r: real)
    requires s > 0.0 && aa == a * a && ss == s * s && aa == k * ss && r == a / s
    ensures r * r == k
  {
    Quotient(a, s, r);
    Square(s, ss);
    var rr := r * r;
    assert ss * rr == aa by {
      assert (s * s) * (r * r) == (s * r) * (s * r);
    }
    assert ss * k == aa;
    Unscale(ss, rr, k, aa, aa);
    Unscale(ss, k, rr, aa, aa);
  }

  /** The bound is met: when n-1 values are equal and the last one differs, the squared score is n-1. */
  lemma {:induction false} OneOffScore(n: nat, x: real, y: real, sqrt: real -> real)
    requires n >= 2 && x != y && ExactRoot(sqrt)
    ensures var r := Score(seq(n - 1, i => x) + [y], sqrt);
            r >= 0.0 && r * r == (n - 1) as real
  {
    var v, k, e := seq(n - 1, i => x) + [y], (n - 1) as real, (y - x) / n as real;
    Quotient(y - x, n as real, e);
    OneOffMoments(n, x, y, e);
    Square(e, e * e);
    Positive(k, e * e, k * (e * e));
    var s, a := sqrt(Variance(v)), Abs(y - Mean(v));
    var ke, kee := k * e, k * (e * e);
    assert a * a == ke * ke && ke * ke == k * kee by {
      assert (k * e) * (k * e) == k * (k * (e * e));
    }
    assert s * s == kee && s != 0.0;
    RatioExact(a, s, k, a * a, s * s, a / s);
    ScoreBound(v, sqrt);
  }

  /** Eleven are enough: ten equal values and one other always give an anomaly. */
  lemma {:induction false} ElevenAreEnough(x: real, y: real, sqrt: real -> real)
    requires ExactRoot(sqrt) && x != y
    ensures Score(seq(10, i => x) + [y], sqrt) > 3.0
  {
    OneOffScore(11, x, y, sqrt);
    var r := Score(seq(10, i => x) + [y], sqrt);
    if r <= 3.0 {
      AtMostThree(r, r * r, r * (3.0 - r));
    }
  }

  lemma {:induction false} AtMostThree(r: real, rr: real, gap: real)
    requires 0.0 <= r <= 3.0 && rr == r * r && gap == r * (3.0 - r)
    ensures rr <= 9.0
  {
    assert gap == 3.0 * r - rr;
    if 0.0 < r < 3.0 {
      Positive(r, 3.0 - r, gap);
    } else if r == 0.0 {
      assert rr == 0.0;
    } else {
      assert rr == 9.0;
    }
  }

  // ------------------------------------------------------ what is computed

  function SumOfSquares(v: seq<real>): real {
    if v == [] then 0.0 else v[0] * v[0] + SumOfSquares(v[1..])
  }

  lemma {:induction false} SumOfSquaresSnoc(v: seq<real>, x: real)
    ensures SumOfSquares(v + [x]) == SumOfSquares(v) + x * x
  {
    if v == [] {
      assert [x][1..] == [];
    } else {
      assert (v + [x])[1..] == v[1..] + [x];
      SumOfSquaresSnoc(v[1..], x);
    }
  }

  /** The sum of the products with `m`, and `mm` once for each value. */
  function Cross(v: seq<real>, m: real): real {
    if v == [] then 0.0 else Cross(v[..|v| - 1], m) + m * v[|v| - 1]
  }

  function Times(v: seq<real>, mm: real): real {
    if v == [] then 0.0 else Times(v[..|v| - 1], mm) + mm
  }

  lemma {:induction false} CrossIsProduct(v: seq<real>, m: real)
    ensures Cross(v, m) == m * Sum(v)
  {
    if v != [] {
      CrossIsProduct(v[..|v| - 1], m);
    }
  }

  lemma {:induction false} TimesIsProduct(v: seq<real>, mm: real)
    ensures Times(v, mm) == |v| as real * mm
  {
    if v != [] {
      var k := (|v| - 1) as real;
      TimesIsProduct(v[..|v| - 1], mm);
      assert (k + 1.0) * mm == k * mm + mm;
    }
  }

  lemma {:induction false} SquareOfDifference(x: real, m: real)
    ensures (x - m) * (x - m) == x * x - 2.0 * (m * x) + m * m
  {
  }

  lemma {:induction false} DeviationExpands(v: seq<real>, m: real, mm: real)
    requires mm == m * m
    ensures Deviation(v, m) == SumOfSquares(v) - 2.0 * Cross(v, m) + Times(v, mm)
  {
    if v != [] {
      var u, x := v[..|v| - 1], v[|v| - 1];
      DeviationExpands(u, m, mm);
      SumOfSquaresSnoc(u, x);
      assert v == u + [x];
      SquareOfDifference(x, m);
    }
  }

  lemma {:induction false} Regroup(a: real, b: real, c: real, ab: real)
    requires ab == a * b
    ensures a * (b * c) == ab * c
  {
  }

  lemma {:induction false} Distribute(n: real, q: real, x: real, y: real)
    ensures n * (q - 2.0 * x + y) == n * q - 2.0 * (n * x) + n * y
  {
  }

  /** n^2 times a variance, from n m = t and n variances = q - 2 m t + n m^2. */
  lemma {:induction false} ClearQuotients(n: real, m: real, t: real, q: real, variance: real, mt: real, nmm: real)
    requires n * m == t && mt == m * t && nmm == n * (m * m)
    requires n * variance == q - 2.0 * mt + nmm
    ensures n * n * variance == n * q - t * t
  {
    Regroup(n, m, t, t);
    Regroup(n, m, m, t);
    assert nmm == t * m == mt;
    Distribute(n, q, mt, nmm);
    Regroup(n, n, variance, n * n);
  }

  lemma {:induction false} MomentFacts(v: seq<real>, n: real, m: real, mt: real, nmm: real)
    requires v != [] && n == |v| as real && m == Mean(v) && mt == m * Sum(v) && nmm == n * (m * m)
    ensures n * m == Sum(v)
    ensures n * Variance(v) == SumOfSquares(v) - 2.0 * mt + nmm
  {
    DeviationExpands(v, m, m * m);
    CrossIsProduct(v, m);
    TimesIsProduct(v, m * m);
    Quotient(Sum(v), n, m);
    Quotient(Deviation(v, m), n, Variance(v));
  }

  /** The variance in terms of the plain sums: it is the mean of the squares minus the squared mean. */
  lemma {:induction false} VarianceByMoments(v: seq<real>, n: real)
    requires v != [] && n == |v| as real
    ensures n * n * Variance(v) == n * SumOfSquares(v) - Sum(v) * Sum(v)
  {
    var m := Mean(v);
    MomentFacts(v, n, m, m * Sum(v), n * (m * m));
    ClearQuotients(n, m, Sum(v), SumOfSquares(v), Variance(v), m * Sum(v), n * (m * m));
  }

  /** The score is the distance of the latest value from the mean, in standard deviations. */
  lemma {:induction false} ScoreMeans(v: seq<real>, sqrt: real -> real)
    requires v != [] && ExactRoot(sqrt)
    ensures |v| as real * Mean(v) == Sum(v)
    ensures Score(v, sqrt) >= 0.0
    ensures Variance(v) > 0.0 ==>
              Score(v, sqrt) * Score(v, sqrt) * Variance(v) == (v[|v| - 1] - Mean(v)) * (v[|v| - 1] - Mean(v))
    ensures Variance(v) == 0.0 ==> Score(v, sqrt) == 0.0
  {
    Quotient(Sum(v), |v| as real, Mean(v));
    ScoreBound(v, sqrt);
    VarianceNonNegative(v);
    var d, s, r := v[|v| - 1] - Mean(v), sqrt(Variance(v)), Score(v, sqrt);
    if Variance(v) > 0.0 {
      assert s * s == Variance(v) && s > 0.0;
      Quotient(Abs(d), s, r);
      assert r * r * (s * s) == (s * r) * (s * r);
      assert Abs(d) * Abs(d) == d * d;
    } else {
      if s > 0.0 { Positive(s, s, s * s); }
    }
  }

  /** Rounding gives a multiple of a hundredth, at most half a hundredth away, the larger one of two. */
  lemma {:induction false} Round2Means(x: real)
    ensures Round2(x) * 100.0 == (Round2(x) * 100.0).Floor as real
    ensures x - 0.005 < Round2(x) <= x + 0.005
  {
    var n := (x * 100.0 + 0.5).Floor;
    assert Round2(x) * 100.0 == n as real;
  }

  lemma {:induction false} SumOfEqual(x: real, n: nat)
    ensures Sum(seq(n, i => x)) == n as real * x
  {
    if n > 0 {
      SumOfEqual(x, n - 1);
      assert seq(n, i => x)[..n - 1] == seq(n - 1, i => x);
      var k := (n - 1) as real;
      assert (k + 1.0) * x == k * x + x;
    }
  }

  lemma {:induction false} DeviationOfEqual(x: real, n: nat, m: real)
    ensures Deviation(seq(n, i => x), m) == n as real * ((x - m) * (x - m))
  {
    if n > 0 {
      DeviationOfEqual(x, n - 1, m);
      assert seq(n, i => x)[..n - 1] == seq(n - 1, i => x);
      var k, d := (n - 1) as real, (x - m) * (x - m);
      assert (k + 1.0) * d == k * d + d;
    }
  }
}
