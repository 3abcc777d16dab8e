/** The statistics behind the adaptive threshold, on exact reals: the two-pass
    formulas (sum, mean, sum of squared deviations), the one-pass update that the
    seismometer uses instead, and how many samples can lie above
    `mean + sigma * stddev`.
 */
module Statistics {
  import opened Words

  /** Sum of f over the samples. */
  function SumBy(f: real -> real, xs: seq<real>): real {
    if xs == [] then 0.0 else SumBy(f, xs[..|xs| - 1]) + f(xs[|xs| - 1])
  }

  function Identity(): real -> real { x => x }
  function Square(d: real): real { d * d }
  function SquareFrom(c: real): real -> real { x => Square(x - c) }
  function OnlyAbove(q: real): real -> real { x => if x > q then x else 0.0 }

  function Sum(xs: seq<real>): real {
    SumBy(Identity(), xs)
  }

  /** Sum of (x - c)^2. */
  function SquaredDeviations(xs: seq<real>, c: real): real {
    SumBy(SquareFrom(c), xs)
  }

  function Mean(xs: seq<real>): real
    requires xs != []
  {
    Sum(xs) / |xs| as real
  }

  /** Number of samples strictly above q. */
  function CountAbove(xs: seq<real>, q: real): (k: nat)
    ensures k <= |xs|
  {
    if xs == [] then 0
    else CountAbove(xs[..|xs| - 1], q) + if xs[|xs| - 1] > q then 1 else 0
  }

  /** s is the square root of r. */
  predicate IsRoot(s: real, r: real) {
    s >= 0.0 && Square(s) == r
  }

  /** The sample variance, by the two-pass formula. */
  function Variance(xs: seq<real>): real
    requires |xs| >= 2
  {
    SquaredDeviations(xs, Mean(xs)) / (|xs| - 1) as real
  }

  /** s is the sample standard deviation of xs. */
  predicate IsStdDev(s: real, xs: seq<real>)
    requires |xs| >= 2
  {
    IsRoot(s, Variance(xs))
  }

  /** Room for k of n samples above the threshold; false for k == n. */
  predicate Fits(n: nat, k: nat, sigma: real) {
    k as real * n as real * Square(sigma) < (n as real - 1.0) * (n as real - k as real)
  }

  // ----- one-step facts, so that the proofs below can hide the definitions -----

  lemma MeanTimes(xs: seq<real>, m: real)
    requires xs != []
    ensures m * |xs| as real == Sum(xs) <==> m == Mean(xs)
  {
  }

  lemma Append(xs: seq<real>, x: real, c: real)
    ensures Sum(xs + [x]) == Sum(xs) + x
    ensures SquaredDeviations(xs + [x], c) == SquaredDeviations(xs, c) + Square(x - c)
  {
    assert (xs + [x])[..|xs|] == xs;
  }

  lemma AppendAbove(xs: seq<real>, x: real, q: real)
    ensures SumBy(OnlyAbove(q), xs + [x]) == SumBy(OnlyAbove(q), xs) + if x > q then x else 0.0
    ensures CountAbove(xs + [x], q) == CountAbove(xs, q) + if x > q then 1 else 0
  {
    assert (xs + [x])[..|xs|] == xs;
  }

  lemma AppendBy(f: real -> real, xs: seq<real>, x: real)
    ensures SumBy(f, xs + [x]) == SumBy(f, xs) + f(x)
  {
    assert (xs + [x])[..|xs|] == xs;
  }

  lemma RootTimes(s: real, xs: seq<real>)
    requires |xs| >= 2 && IsStdDev(s, xs)
    ensures s >= 0.0 && SquaredDeviations(xs, Mean(xs)) == Square(s) * (|xs| as real - 1.0)
    ensures s == 0.0 ==> SquaredDeviations(xs, Mean(xs)) == 0.0
  {
    hide SumBy;
  }

  // ----- sums over concatenations, constants and reorderings -----

  lemma {:induction false} SumByConcat(f: real -> real, xs: seq<real>, ys: seq<real>)
    ensures SumBy(f, xs + ys) == SumBy(f, xs) + SumBy(f, ys)
  {
    if ys == [] {
      assert xs + ys == xs;
    } else {
      assert (xs + ys)[..|xs + ys| - 1] == xs + ys[..|ys| - 1];
      SumByConcat(f, xs, ys[..|ys| - 1]);
    }
  }

  lemma {:induction false} OrderIndependent(f: real -> real, xs: seq<real>, ys: seq<real>)
    requires multiset(xs) == multiset(ys)
    ensures |xs| == |ys| && SumBy(f, xs) == SumBy(f, ys)
  {
    assert |multiset(xs)| == |xs| && |multiset(ys)| == |ys|;
    if xs != [] {
      var x, rest := xs[|xs| - 1], xs[..|xs| - 1];
      hide *;
      assert xs == rest + [x];
      assert x in multiset(ys);
      var i :| 0 <= i < |ys| && ys[i] == x;
      var l, r := ys[..i], ys[i + 1..];
      assert ys == l + [x] + r;
      WithoutOne(rest, l, r, x);
      OrderIndependent(f, rest, l + r);
      AppendBy(f, rest, x);
      AppendBy(f, l, x);
      SumByConcat(f, l, r);
      SumByConcat(f, l + [x], r);
    }
  }

  lemma {:induction false} CountAboveConcat(xs: seq<real>, ys: seq<real>, q: real)
    ensures CountAbove(xs + ys, q) == CountAbove(xs, q) + CountAbove(ys, q)
  {
    if ys == [] {
      assert xs + ys == xs;
    } else {
      assert (xs + ys)[..|xs + ys| - 1] == xs + ys[..|ys| - 1];
      CountAboveConcat(xs, ys[..|ys| - 1], q);
    }
  }

  function Times(n: nat, v: real): real { n as real * v }

  lemma SuccTimes(n: nat, v: real)
    ensures Times(0, v) == 0.0 && Times(n + 1, v) == Times(n, v) + v
  {
  }

  lemma {:induction false} Repeated(f: real -> real, x: real, n: nat, q: real)
    ensures SumBy(f, seq(n, _ => x)) == Times(n, f(x))
    ensures CountAbove(seq(n, _ => x), q) == if x > q then n else 0
  {
    SuccTimes(if n > 0 then n - 1 else 0, f(x));
    if n > 0 {
      hide Times;
      Repeated(f, x, n - 1, q);
      assert seq(n, _ => x)[..n - 1] == seq(n - 1, _ => x);
    }
  }

  function Line(a: real, b: real, x: real): real { a * x + b }

  /** a * s + b * k: the line summed over k points whose sum is s. */
  function LineSum(a: real, b: real, s: real, k: real): real { a * s + b * k }

  lemma LineSumStep(a: real, b: real, s: real, k: real, x: real)
    ensures LineSum(a, b, s + x, k + 1.0) == LineSum(a, b, s, k) + Line(a, b, x)
    ensures LineSum(a, b, 0.0, 0.0) == 0.0
  {
  }

  /** f lies above two lines; use the first above q and the second elsewhere. */
  lemma {:induction false} SplitBound(f: real -> real, xs: seq<real>, q: real, a: real, b: real, c: real, d: real)
    requires forall x :: f(x) >= Line(a, b, x) && f(x) >= Line(c, d, x)
    ensures var above, k, n := SumBy(OnlyAbove(q), xs), CountAbove(xs, q) as real, |xs| as real;
            SumBy(f, xs) >= LineSum(a, b, above, k) + LineSum(c, d, Sum(xs) - above, n - k)
  {
    if xs == [] {
      LineSumStep(a, b, 0.0, 0.0, 0.0);
      LineSumStep(c, d, 0.0, 0.0, 0.0);
    } else {
      var ys, x := xs[..|xs| - 1], xs[|xs| - 1];
      hide Line, LineSum;
      SplitBound(f, ys, q, a, b, c, d);
      assert xs == ys + [x];
      hide *;
      AppendBy(f, ys, x);
      Append(ys, x, 0.0);
      AppendAbove(ys, x, q);
      var above, k, n := SumBy(OnlyAbove(q), ys), CountAbove(ys, q) as real, |ys| as real;
      LineSumStep(a, b, above, k, x);
      LineSumStep(c, d, Sum(ys) - above, n - k, x);
      assert x > q ==> Sum(xs) - (above + x) == Sum(ys) - above;
      assert Sum(xs) - above == Sum(ys) - above + x && n + 1.0 - k == n - k + 1.0;
    }
  }

  // ----- the one-pass update -----

  lemma RecentreStep(m: real, c: real, s: real, n: real, x: real)
    ensures 2.0 * (m - c) * (s + x - (n + 1.0) * m) + (n + 1.0) * (m - c) * (m - c) + Square(x - m)
         == 2.0 * (m - c) * (s - n * m) + n * (m - c) * (m - c) + Square(x - c)
  {
  }

  lemma {:induction false} Recentre(xs: seq<real>, m: real, c: real)
    ensures SquaredDeviations(xs, c)
         == SquaredDeviations(xs, m) + 2.0 * (m - c) * (Sum(xs) - |xs| as real * m) + |xs| as real * (m - c) * (m - c)
  {
    if xs != [] {
      var ys, x := xs[..|xs| - 1], xs[|xs| - 1];
      hide *;
      Recentre(ys, m, c);
      assert xs == ys + [x];
      Append(ys, x, m);
      Append(ys, x, c);
      RecentreStep(m, c, Sum(ys), |ys| as real, x);
    }
  }

  /** What the one-pass update adds to the sum of squared deviations. */
  function CrossTerm(x: real, m: real, m': real): real { (x - m) * (x - m') }

  lemma WelfordAlgebra(m: real, s: real, n: real, x: real, e: real)
    requires m * n == s && e * (n + 1.0) == x - m
    ensures (m + e) * (n + 1.0) == s + x
    ensures 2.0 * (m - (m + e)) * (s - n * m) + n * (m - (m + e)) * (m - (m + e))
            + Square(x - (m + e)) == CrossTerm(x, m, m + e)
  {
    assert s - n * m == 0.0;
    assert x == m + e * (n + 1.0);
  }

  /** The one-pass update keeps the mean and the sum of squared deviations exact. */
  lemma Welford(xs: seq<real>, m: real, x: real, m': real)
    requires m * |xs| as real == Sum(xs)
    requires m' == m + (x - m) / (|xs| + 1) as real
    ensures m' == Mean(xs + [x])
    ensures SquaredDeviations(xs + [x], m') == SquaredDeviations(xs, m) + CrossTerm(x, m, m')
  {
    hide *;
    var n := |xs| as real;
    var e := (x - m) / (|xs| + 1) as real;
    WelfordAlgebra(m, Sum(xs), n, x, e);
    Recentre(xs, m, m + e);
    Append(xs, x, m + e);
    MeanTimes(xs + [x], m + e);
  }

  lemma {:induction false} SquaredDeviationsNonNegative(xs: seq<real>, c: real)
    ensures SquaredDeviations(xs, c) >= 0.0
    ensures SquaredDeviations(xs, c) == 0.0 ==> forall i :: 0 <= i < |xs| ==> xs[i] == c
  {
    if xs != [] {
      var ys, x := xs[..|xs| - 1], xs[|xs| - 1];
      SquaredDeviationsNonNegative(ys, c);
      SquareSign(x - c);
      assert xs == ys + [x];
      hide *;
      Append(ys, x, c);
    }
  }

  lemma SquareSign(d: real)
    ensures Square(d) >= 0.0
    ensures d != 0.0 ==> Square(d) > 0.0
  {
    if d > 0.0 {
      Positive(d, d, Square(d));
    } else if d < 0.0 {
      Positive(-d, -d, Square(d));
    }
  }

  // ----- how many samples can lie above the threshold -----

  lemma {:induction false} SumAboveExceeds(xs: seq<real>, q: real)
    ensures var above := SumBy(OnlyAbove(q), xs);
            && above >= q * CountAbove(xs, q) as real
            && (CountAbove(xs, q) > 0 ==> above > q * CountAbove(xs, q) as real)
            && (CountAbove(xs, q) == |xs| ==> above == Sum(xs))
    ensures (forall i :: 0 <= i < |xs| ==> xs[i] <= q) ==> CountAbove(xs, q) == 0
  {
    if xs != [] {
      SumAboveExceeds(xs[..|xs| - 1], q);
      var k := CountAbove(xs[..|xs| - 1], q);
      assert q * (k + 1) as real == q * k as real + q;
    }
  }

  /** At most this many of n samples lie strictly above mean + sigma * stddev.
      Dropping the factor n - k gives Chebyshev's bound, k = 1 gives Samuelson's. */
  lemma AboveThresholdBound(xs: seq<real>, sigma: real, s: real)
    requires |xs| >= 2 && sigma >= 0.0 && IsStdDev(s, xs)
    ensures var n, k := |xs|, CountAbove(xs, Mean(xs) + s * sigma);
            k > 0 ==> Fits(n, k, sigma)
  {
    var m, t := Mean(xs), s * sigma;
    var k := CountAbove(xs, m + t);
    RootTimes(s, xs);
    hide *;
    MulMono(s, 0.0, sigma);
    NotAllAbove(xs, m, t);
    var m2 := SquaredDeviations(xs, m);
    if k > 0 {
      if s == 0.0 {
        SquaredDeviationsNonNegative(xs, m);
        SumAboveExceeds(xs, m + t);
        assert false;
      } else if sigma == 0.0 {
        FitsAtZero(|xs|, k);
      } else {
        Positive(s, sigma, t);
        TangentBound(xs, m, t);
        BoundAlgebra(|xs|, k, m2, s, sigma);
      }
    }
  }

  lemma FitsAtZero(n: nat, k: nat)
    requires n >= 2 && k < n
    ensures Fits(n, k, 0.0)
  {
    Positive(n as real - 1.0, n as real - k as real, (n as real - 1.0) * (n as real - k as real));
    assert Square(0.0) == 0.0;
  }

  // (A product compared with zero is stated through a variable.)
  lemma Positive(a: real, b: real, p: real)
    requires a > 0.0 && b > 0.0 && p == a * b
    ensures p > 0.0
  {
  }

  lemma PositiveFactor(a: real, b: real, p: real)
    requires p > 0.0 && b > 0.0 && p == a * b
    ensures a > 0.0
  {
    if a <= 0.0 { MulMono(b, a, 0.0); }
  }

  lemma NotAllAbove(xs: seq<real>, m: real, t: real)
    requires xs != [] && m == Mean(xs) && t >= 0.0
    ensures CountAbove(xs, m + t) < |xs|
  {
    SumAboveExceeds(xs, m + t);
    var n := |xs| as real;
    assert m * n == Sum(xs);
    MulMono(n, m, m + t);
  }

  /** With r = n - k and t = u * r: the tangents to (x - m)^2 at m + t above the
      threshold and at m - u * k below it sum up to more than k * n * t^2 / r. */
  lemma TangentBound(xs: seq<real>, m: real, t: real)
    requires xs != [] && m == Mean(xs) && t > 0.0
    requires 0 < CountAbove(xs, m + t) < |xs|
    ensures var n, k := |xs| as real, CountAbove(xs, m + t) as real;
            SquaredDeviations(xs, m) * (n - k) > k * n * Square(t)
  {
    hide *;
    var q := m + t;
    var n, k := |xs| as real, CountAbove(xs, q) as real;
    var v := LowerTangent(t, k, n - k);
    var f := SquareFrom(m);
    TangentsBelow(m, t, v);
    SplitBound(f, xs, q, 2.0 * t, Intercept(m, t), -2.0 * v, Intercept(m, -v));
    MeanTimes(xs, m);
    SumAboveExceeds(xs, q);
    TangentAlgebra(n, k, n - k, m, t, v, Sum(xs), SumBy(OnlyAbove(q), xs), SumBy(f, xs));
    DeviationsDefinition(xs, m);
  }

  lemma DeviationsDefinition(xs: seq<real>, m: real)
    ensures SquaredDeviations(xs, m) == SumBy(SquareFrom(m), xs)
  {
  }

  lemma TangentsBelow(m: real, t: real, v: real)
    ensures var f := SquareFrom(m);
            forall x: real :: f(x) >= Line(2.0 * t, Intercept(m, t), x) && f(x) >= Line(-2.0 * v, Intercept(m, -v), x)
  {
    var f := SquareFrom(m);
    assert forall x: real :: f(x) == Square(x - m);
    hide *;
    forall x: real ensures f(x) >= Line(2.0 * t, Intercept(m, t), x) && f(x) >= Line(-2.0 * v, Intercept(m, -v), x) {
      Tangent(x, m, t);
      Tangent(x, m, -v);
    }
  }

  function LowerTangent(t: real, k: real, r: real): real
    requires r != 0.0
  {
    Quotient(t, r) * k
  }

  /** The tangent to (x - m)^2 at m + w is 2 * w * x + Intercept(m, w). */
  function Intercept(m: real, w: real): real { -2.0 * w * m - w * w }

  lemma Tangent(x: real, m: real, w: real)
    ensures Square(x - m) >= Line(2.0 * w, Intercept(m, w), x)
  {
    SquareSign(x - m - w);
  }

  lemma TangentAlgebra(n: real, k: real, r: real, m: real, t: real, v: real, sum: real, above: real, m2: real)
    requires k > 0.0 && r > 0.0 && n == k + r && t > 0.0 && v == LowerTangent(t, k, r)
    requires m * n == sum && above > (m + t) * k
    requires m2 >= LineSum(2.0 * t, Intercept(m, t), above, k) + LineSum(-2.0 * v, Intercept(m, -v), sum - above, r)
    ensures m2 * r > k * n * Square(t)
  {
    var u := Quotient(t, r);
    var a, un := above - m * k, u * n;
    var w := un * (t * k);
    assert a > t * k by { assert (m + t) * k == m * k + t * k; }
    assert v == u * k;
    hide *;
    PositiveFactor(u, r, t);
    Positive(u, n, un);
    TangentIdentity(n, k, r, m, t, v, u, sum, a, above);
    MulStrict(un, t * k, a);
    assert m2 > w;
    MulStrict(r, w, m2);
    assert w * r < m2 * r;
    LastIdentity(n, k, r, t, u);
    assert w * r == k * n * Square(t);
  }

  function Quotient(a: real, b: real): (q: real)
    requires b != 0.0
    ensures q * b == a
  {
    a / b
  }

  lemma LastIdentity(n: real, k: real, r: real, t: real, u: real)
    requires t == u * r
    ensures ((u * n) * (t * k)) * r == k * n * Square(t)
  {
  }

  lemma TangentIdentity(n: real, k: real, r: real, m: real, t: real, v: real, u: real, sum: real, a: real, above: real)
    requires t == u * r && v == u * k && n == k + r && sum == m * n && above == a + m * k
    ensures LineSum(2.0 * t, Intercept(m, t), above, k) + LineSum(-2.0 * v, Intercept(m, -v), sum - above, r)
         == 2.0 * ((u * n) * a) - (u * n) * (t * k)
  {
    assert sum - above == m * r - a;
    TangentLine(m, t, k, a);
    TangentLine(m, -v, r, -a);
    hide *;
    WeightIdentity(n, k, r, t, v, u, a);
  }

  lemma TangentLine(m: real, w: real, k: real, a: real)
    ensures LineSum(2.0 * w, Intercept(m, w), a + m * k, k) == 2.0 * (w * a) - w * w * k
  {
  }

  lemma WeightIdentity(n: real, k: real, r: real, t: real, v: real, u: real, a: real)
    requires t == u * r && v == u * k && n == k + r
    ensures 2.0 * (t * a) - t * t * k + (2.0 * (-v * -a) - -v * -v * r) == 2.0 * ((u * n) * a) - (u * n) * (t * k)
  {
    assert t + v == u * n;
    assert t * t * k == (u * r) * (t * k);
    assert v * v * r == (u * k) * (t * k);
  }

  lemma BoundAlgebra(n: nat, k: nat, m2: real, s: real, sigma: real)
    requires s > 0.0 && m2 == Square(s) * (n as real - 1.0)
    requires m2 * (n as real - k as real) > k as real * n as real * Square(s * sigma)
    ensures Fits(n, k, sigma)
  {
    var nr, kr := n as real, k as real;
    var lhs, rhs := kr * nr * Square(sigma), (nr - 1.0) * (nr - kr);
    assert kr * nr * Square(s * sigma) == Square(s) * lhs by {
      SquareProduct(s, sigma);
      Shuffle(kr, nr, Square(s), Square(sigma));
    }
    assert m2 * (nr - kr) == Square(s) * rhs by { Shuffle(Square(s), nr - 1.0, 1.0, nr - kr); }
    Positive(s, s, Square(s));
    if lhs >= rhs { MulMono(Square(s), rhs, lhs); }
  }

  lemma Shuffle(a: real, b: real, c: real, d: real)
    ensures a * b * (c * d) == c * (a * b * d)
    ensures a * b * d == a * (b * d)
  {
  }

  lemma MulMono(c: real, a: real, b: real)
    requires c >= 0.0 && a <= b
    ensures c * a <= c * b && a * c <= b * c
  {
  }

  lemma MulStrict(c: real, a: real, b: real)
    requires c > 0.0 && a < b
    ensures c * a < c * b && a * c < b * c
  {
  }

  // ----- the bound is sharp -----

  /** k samples at one and the rest at zero. */
  function Spike(n: nat, k: nat): (xs: seq<real>)
    requires k <= n
    ensures |xs| == n
  {
    seq(k, _ => 1.0) + seq(n - k, _ => 0.0)
  }

  /** Whenever the bound allows k of n samples above the threshold, k equal spikes
      among n - k zeros are above it. */
  lemma AboveThresholdSharp(n: nat, k: nat, sigma: real, s: real)
    requires 1 <= k < n && sigma >= 0.0
    requires Fits(n, k, sigma) && IsStdDev(s, Spike(n, k))
    ensures CountAbove(Spike(n, k), Mean(Spike(n, k)) + s * sigma) == k
  {
    hide *;
    SpikeThreshold(n, k, sigma, s);
    SpikeCount(n, k, Mean(Spike(n, k)) + s * sigma);
  }

  lemma SpikeThreshold(n: nat, k: nat, sigma: real, s: real)
    requires 1 <= k < n && sigma >= 0.0 && Fits(n, k, sigma) && IsStdDev(s, Spike(n, k))
    ensures 0.0 <= Mean(Spike(n, k)) + s * sigma < 1.0
  {
    hide Spike, Mean, Variance, SquaredDeviations, Square, CountAbove, IsStdDev;
    var xs := Spike(n, k);
    var m := Mean(xs);
    RootTimes(s, xs);
    SpikeSums(n, k, m);
    MeanTimes(xs, m);
    SpikeAlgebra(n as real, k as real, (n - k) as real, m, SquaredDeviations(xs, m), s, sigma);
  }

  lemma SpikeCount(n: nat, k: nat, q: real)
    requires k <= n && 0.0 <= q < 1.0
    ensures CountAbove(Spike(n, k), q) == k
  {
    CountAboveConcat(seq(k, _ => 1.0), seq(n - k, _ => 0.0), q);
    Repeated(Identity(), 1.0, k, q);
    Repeated(Identity(), 0.0, n - k, q);
  }

  lemma SpikeBy(f: real -> real, n: nat, k: nat)
    requires k <= n
    ensures SumBy(f, Spike(n, k)) == Times(k, f(1.0)) + Times(n - k, f(0.0))
  {
    var ones, zeros := seq(k, _ => 1.0), seq(n - k, _ => 0.0);
    assert Spike(n, k) == ones + zeros;
    hide *;
    SumByConcat(f, ones, zeros);
    Repeated(f, 1.0, k, 0.0);
    Repeated(f, 0.0, n - k, 0.0);
  }

  lemma SpikeSums(n: nat, k: nat, m: real)
    requires k <= n
    ensures |Spike(n, k)| == n && Sum(Spike(n, k)) == k as real
    ensures SquaredDeviations(Spike(n, k), m) == k as real * Square(1.0 - m) + (n - k) as real * Square(m)
  {
    SpikeBy(Identity(), n, k);
    SpikeBy(SquareFrom(m), n, k);
    hide Spike, SumBy;
    assert Square(0.0 - m) == Square(m);
    hide Square;
  }

  lemma SpikeAlgebra(n: real, k: real, r: real, m: real, m2: real, s: real, sigma: real)
    requires k >= 1.0 && r >= 1.0 && n == k + r && m * n == k
    requires m2 == k * Square(1.0 - m) + r * Square(m)
    requires s >= 0.0 && sigma >= 0.0 && m2 == Square(s) * (n - 1.0)
    requires k * n * Square(sigma) < (n - 1.0) * r
    ensures 1.0 > m + s * sigma && m + s * sigma >= 0.0
  {
    hide *;
    SpikeSigns(n, k, r, m, s, sigma);
    SpikeSquares(n, k, r, m, 1.0 - m, m2);
    SpikeGap(n, k, r, 1.0 - m, m2, s, sigma);
    SquareMono(1.0 - m, s * sigma);
  }

  lemma SpikeSigns(n: real, k: real, r: real, m: real, s: real, sigma: real)
    requires k >= 1.0 && r >= 1.0 && n == k + r && m * n == k && s >= 0.0 && sigma >= 0.0
    ensures s * sigma >= 0.0 && m > 0.0 && 1.0 - m > 0.0 && (1.0 - m) * n == r
  {
    MulMono(sigma, 0.0, s);
    PositiveFactor(m, n, k);
    assert (1.0 - m) * n == r;
    PositiveFactor(1.0 - m, n, r);
  }

  lemma SpikeGap(n: real, k: real, r: real, g: real, m2: real, s: real, sigma: real)
    requires n > 1.0 && r > 0.0 && m2 == Square(s) * (n - 1.0)
    requires m2 * n == k * r && Square(g) * (n * n) == r * r && k * n * Square(sigma) < (n - 1.0) * r
    ensures Square(g) > Square(s * sigma)
  {
    hide *;
    SquareProduct(s, sigma);
    SquareSign(sigma);
    SpikeCompare(n, k, r, m2, Square(s), Square(sigma), Square(g), Square(s * sigma));
  }

  lemma SquareProduct(a: real, b: real)
    ensures Square(a * b) == Square(a) * Square(b)
  {
  }

  lemma SquareMono(a: real, b: real)
    requires 0.0 < a
    ensures a <= b ==> Square(a) <= Square(b)
  {
    if a <= b {
      MulMono(a, a, b);
      MulMono(b, a, b);
    }
  }

  lemma SpikeSquares(n: real, k: real, r: real, m: real, g: real, m2: real)
    requires g == 1.0 - m && m * n == k && g * n == r && m2 == k * Square(g) + r * Square(m)
    ensures m2 * n == k * r
    ensures Square(g) * (n * n) == r * r
  {
    assert (g * g) * (n * n) == (g * n) * (g * n);
    assert k * (g * g) * n == (k * g) * (g * n);
    assert r * (m * m) * n == (r * m) * (m * n);
    assert k * g * r + r * m * k == k * r * (g + m);
  }

  lemma SpikeCompare(n: real, k: real, r: real, m2: real, ss: real, z: real, gg: real, tt: real)
    requires n > 1.0 && r > 0.0 && z >= 0.0
    requires m2 == ss * (n - 1.0) && tt == ss * z
    requires m2 * n == k * r && gg * (n * n) == r * r
    requires k * n * z < (n - 1.0) * r
    ensures gg > tt
  {
    var p := (n - 1.0) * (n * n);
    Positive(n, n, n * n);
    Positive(n - 1.0, n * n, p);
    MulStrict(r, k * n * z, (n - 1.0) * r);
    CompareIdentities(n, k, r, m2, ss, z, gg);
    if gg <= tt { MulMono(p, gg, tt); }
  }

  lemma CompareIdentities(n: real, k: real, r: real, m2: real, ss: real, z: real, gg: real)
    requires m2 == ss * (n - 1.0) && m2 * n == k * r && gg * (n * n) == r * r
    ensures gg * ((n - 1.0) * (n * n)) == r * ((n - 1.0) * r)
    ensures (ss * z) * ((n - 1.0) * (n * n)) == r * (k * n * z)
  {
    assert gg * ((n - 1.0) * (n * n)) == (gg * (n * n)) * (n - 1.0);
    assert (ss * z) * ((n - 1.0) * (n * n)) == ((ss * (n - 1.0)) * n) * (n * z);
  }

  // ----- how far a single sample can lie from the mean -----

  /** The samples other than the one at i. */
  function Others(xs: seq<real>, i: nat): seq<real>
    requires i < |xs|
  {
    xs[..i] + xs[i + 1..]
  }

  predicate AllEqual(xs: seq<real>) {
    forall i, j :: 0 <= i < j < |xs| ==> xs[i] == xs[j]
  }

  /** Samuelson's inequality, for samples above and below the mean alike; it is an equality
      exactly when all the other samples agree. */
  lemma SamuelsonPointwise(xs: seq<real>, i: nat)
    requires i < |xs|
    ensures var n, m := |xs| as real, Mean(xs);
            && n * Square(xs[i] - m) <= (n - 1.0) * SquaredDeviations(xs, m)
            && (n * Square(xs[i] - m) == (n - 1.0) * SquaredDeviations(xs, m) <==> AllEqual(Others(xs, i)))
  {
    var ys := Others(xs, i);
    if ys == [] {
      OneSample(xs);
    } else {
      PointwiseAgainstOthers(xs, i, ys);
    }
  }

  lemma OneSample(xs: seq<real>)
    requires |xs| == 1
    ensures Square(xs[0] - Mean(xs)) == SquaredDeviations(xs, Mean(xs)) == 0.0
  {
    assert xs == [] + [xs[0]];
    Append([], xs[0], Mean(xs));
    MeanTimes(xs, xs[0]);
  }

  lemma PointwiseAgainstOthers(xs: seq<real>, i: nat, ys: seq<real>)
    requires i < |xs| && ys == Others(xs, i) != []
    ensures var n, m := |xs| as real, Mean(xs);
            && n * Square(xs[i] - m) <= (n - 1.0) * SquaredDeviations(xs, m)
            && (n * Square(xs[i] - m) == (n - 1.0) * SquaredDeviations(xs, m) <==> AllEqual(ys))
  {
    var x, m, e, k := xs[i], Mean(xs), Mean(ys), |ys| as real;
    SplitOff(xs, i, m);
    hide *;
    MeanTimes(xs, m);
    MeanTimes(ys, e);
    Recentre(ys, e, m);
    SpreadIsZero(ys);
    assert |xs| as real == k + 1.0;
    var d, m2, sq := SquaredDeviations(ys, e), SquaredDeviations(xs, m), Square(x - m);
    PointwiseAlgebra(k, x, m, e, Sum(ys), d, m2);
    assert (k + 1.0 - 1.0) * m2 == k * m2;
  }

  lemma SplitOff(xs: seq<real>, i: nat, c: real)
    requires i < |xs|
    ensures var ys := Others(xs, i);
            && |ys| == |xs| - 1 && Sum(xs) == Sum(ys) + xs[i]
            && SquaredDeviations(xs, c) == SquaredDeviations(ys, c) + Square(xs[i] - c)
  {
    var l, x, r := xs[..i], xs[i], xs[i + 1..];
    assert xs == l + [x] + r;
    Append(l, x, c);
    SumByConcat(Identity(), l, r);
    SumByConcat(Identity(), l + [x], r);
    SumByConcat(SquareFrom(c), l, r);
    SumByConcat(SquareFrom(c), l + [x], r);
    hide SumBy;
  }

  /** Samples do not spread exactly when they are all equal. */
  lemma SpreadIsZero(xs: seq<real>)
    requires xs != []
    ensures var m2 := SquaredDeviations(xs, Mean(xs)); m2 >= 0.0 && (m2 == 0.0 <==> AllEqual(xs))
  {
    SquaredDeviationsNonNegative(xs, Mean(xs));
    if AllEqual(xs) {
      var x := xs[0];
      assert xs == seq(|xs|, _ => x);
      Repeated(Identity(), x, |xs|, 0.0);
      MeanTimes(xs, x);
      Repeated(SquareFrom(x), x, |xs|, 0.0);
      assert Square(x - x) == 0.0;
    }
  }

  lemma PointwiseAlgebra(k: real, x: real, m: real, e: real, sum: real, d: real, m2: real)
    requires k > 0.0 && d >= 0.0 && e * k == sum && m * (k + 1.0) == sum + x
    requires m2 == d + 2.0 * (e - m) * (sum - k * e) + k * (e - m) * (e - m) + Square(x - m)
    ensures (k + 1.0) * Square(x - m) + k * d == k * m2
    ensures k * d >= 0.0 && (k * d == 0.0 <==> d == 0.0)
  {
    var g := e - m;
    assert k * g == m - x;
    assert sum - k * e == 0.0;
    assert Square(x - m) == (k * g) * (k * g) == k * (k * g * g);
    hide Square;
    assert 2.0 * g * 0.0 == 0.0;
    assert k * m2 == k * d + k * (k * g * g) + k * Square(x - m);
    if d > 0.0 { Positive(k, d, k * d); }
  }

  // ----- the two classical bounds -----

  /** Chebyshev: k of n samples above the threshold force k * sigma^2 <= n - 1. */
  lemma Chebyshev(xs: seq<real>, sigma: real, s: real)
    requires |xs| >= 2 && sigma >= 0.0 && IsStdDev(s, xs)
    ensures CountAbove(xs, Mean(xs) + s * sigma) as real * Square(sigma) <= |xs| as real - 1.0
  {
    hide *;
    AboveThresholdBound(xs, sigma, s);
    ChebyshevAlgebra(|xs|, CountAbove(xs, Mean(xs) + s * sigma), sigma);
  }

  lemma ChebyshevAlgebra(n: nat, k: nat, sigma: real)
    requires n >= 2 && (k > 0 ==> Fits(n, k, sigma))
    ensures k as real * Square(sigma) <= n as real - 1.0
  {
    var nr, kr, z := n as real, k as real, Square(sigma);
    hide Square;
    if k > 0 {
      MulMono(nr - 1.0, nr - kr, nr);
      Shuffle(nr, 1.0, kr, z);
      assert kr * nr * z == (kr * z) * nr;
      if kr * z > nr - 1.0 { MulStrict(nr, nr - 1.0, kr * z); }
    } else {
      assert 0.0 * z == 0.0;
    }
  }

  /** Samuelson: while (n - 1)^2 <= sigma^2 * n no sample at all is above the threshold. */
  lemma Samuelson(xs: seq<real>, sigma: real, s: real)
    requires |xs| >= 2 && sigma >= 0.0 && IsStdDev(s, xs)
    requires Square(|xs| as real - 1.0) <= Square(sigma) * |xs| as real
    ensures CountAbove(xs, Mean(xs) + s * sigma) == 0
  {
    hide *;
    AboveThresholdBound(xs, sigma, s);
    SamuelsonAlgebra(|xs|, CountAbove(xs, Mean(xs) + s * sigma), sigma);
  }

  lemma SamuelsonAlgebra(n: nat, k: nat, sigma: real)
    requires n >= 2 && Square(n as real - 1.0) <= Square(sigma) * n as real
    ensures k > 0 ==> !Fits(n, k, sigma)
  {
    SquareSign(sigma);
    var nr, kr, z := n as real, k as real, Square(sigma);
    assert Square(nr - 1.0) == (nr - 1.0) * (nr - 1.0);
    hide Square;
    if k > 0 {
      MulMono(nr, 0.0, z);
      MulMono(z * nr, 1.0, kr);
      assert (z * nr) * kr == kr * nr * z;
      MulMono(nr - 1.0, nr - kr, nr - 1.0);
    }
  }
}
