/** Streaming statistics (src/streamstat.c) against the statistics of the whole sample. Means are
    over the reals. */
module StreamStat {
  import opened Widths

  // ---- the sample as a whole ----

  function Sum(xs: seq<int>): int {
    if xs == [] then 0 else Sum(xs[..|xs| - 1]) + xs[|xs| - 1]
  }

  function SumOfSquares(xs: seq<int>): int {
    if xs == [] then 0 else SumOfSquares(xs[..|xs| - 1]) + xs[|xs| - 1] * xs[|xs| - 1]
  }

  /** Sum of squared deviations from c. */
  function Deviation(xs: seq<int>, c: real): real {
    if xs == [] then 0.0
    else Deviation(xs[..|xs| - 1], c) + (xs[|xs| - 1] as real - c) * (xs[|xs| - 1] as real - c)
  }

  function Least(xs: seq<int>): (r: int)
    requires xs != []
    ensures r in xs && forall i :: 0 <= i < |xs| ==> r <= xs[i]
  {
    var x := xs[|xs| - 1];
    if |xs| == 1 then x
    else
      var r := Least(xs[..|xs| - 1]);
      if x < r then x else r
  }

  function Greatest(xs: seq<int>): (r: int)
    requires xs != []
    ensures r in xs && forall i :: 0 <= i < |xs| ==> xs[i] <= r
  {
    var x := xs[|xs| - 1];
    if |xs| == 1 then x
    else
      var r := Greatest(xs[..|xs| - 1]);
      if x > r then x else r
  }

  // ---- mean and variance ----

  predicate IsMean(m: real, xs: seq<int>) {
    m * (|xs| as real) == Sum(xs) as real
  }

  /** Squared deviation from c of k numbers with sum and sum of squares as given. */
  function Moment(squares: real, sum: real, k: real, c: real): real {
    squares - 2.0 * c * sum + k * (c * c)
  }

  lemma {:induction false} DeviationByMoments(xs: seq<int>, c: real)
    ensures Deviation(xs, c) == Moment(SumOfSquares(xs) as real, Sum(xs) as real, |xs| as real, c)
  {
    if xs != [] {
      var n := |xs| - 1;
      var x := xs[n];
      DeviationByMoments(xs[..n], c);
      assert (x as real) * (x as real) == (x * x) as real;
      assert (x as real - c) * (x as real - c) == (x as real) * (x as real) - 2.0 * c * (x as real) + c * c;
    }
  }

  lemma {:induction false} SumBounds(xs: seq<int>, lo: int, hi: int)
    requires forall i :: 0 <= i < |xs| ==> lo <= xs[i] <= hi
    ensures lo * |xs| <= Sum(xs) <= hi * |xs|
  {
    if xs != [] {
      var n := |xs| - 1;
      SumBounds(xs[..n], lo, hi);
      OneTimesMore(lo, n);
      OneTimesMore(hi, n);
    }
  }

  lemma OneTimesMore(a: int, n: nat)
    ensures a * (n + 1) == a * n + a
  {
  }

  /** One more sample: the new mean is the mean of them all. */
  lemma MeanGrows(m: real, k: nat, x: real, sum: real)
    requires m * (k as real) == sum
    ensures (m + (x - m) / ((k + 1) as real)) * ((k + 1) as real) == sum + x
  {
    var n := (k + 1) as real;
    assert (x - m) / n * n == x - m;
    assert (m + (x - m) / n) * n == m * n + (x - m) / n * n;
    assert m * n == m * (k as real) + m;
  }

  /** What one more sample x adds to s, in terms of old and new mean m and p. */
  function Term(x: real, m: real, p: real): real {
    (x - m) * (x - p)
  }

  lemma MomentGrows(q: real, sum: real, k: real, m: real, p: real, x: real)
    requires m * k == sum && p * (k + 1.0) == sum + x
    ensures Moment(q + x * x, sum + x, k + 1.0, p) == Moment(q, sum, k, m) + Term(x, m, p)
  {
    assert (k + 1.0) * (p * p) == p * (sum + x);
    assert k * (m * m) == m * sum;
    assert m * (sum + x) == m * (p * (k + 1.0)) == p * (m * k + m) == p * (sum + m);
    assert (x - m) * (x - p) == x * x - x * p - m * x + m * p;
  }

  function NextMean(m: real, n: nat, x: int): real
    requires n > 0
  {
    m + (x as real - m) / (n as real)
  }

  lemma SumsGrow(xs: seq<int>, x: int)
    ensures Sum(xs + [x]) == Sum(xs) + x && SumOfSquares(xs + [x]) == SumOfSquares(xs) + x * x
  {
    assert (xs + [x])[..|xs|] == xs;
  }

  /** The mean of a sample that grew by x. */
  lemma NextMeanIsMean(xs: seq<int>, x: int, m: real)
    requires IsMean(m, xs)
    ensures IsMean(NextMean(m, |xs| + 1, x), xs + [x])
  {
    MeanGrows(m, |xs|, x as real, Sum(xs) as real);
    SumsGrow(xs, x);
  }

  /** The squared deviation of a sample that grew by x. */
  lemma DeviationGrows(xs: seq<int>, x: int, m: real, p: real)
    requires IsMean(m, xs) && IsMean(p, xs + [x])
    ensures Deviation(xs + [x], p) == Deviation(xs, m) + Term(x as real, m, p)
  {
    hide Deviation, Moment, Term, Sum, SumOfSquares;
    var k, sum, q, y := |xs| as real, Sum(xs) as real, SumOfSquares(xs) as real, x as real;
    SumsGrow(xs, x);
    assert |xs + [x]| as real == k + 1.0 && Sum(xs + [x]) as real == sum + y;
    assert SumOfSquares(xs + [x]) as real == q + y * y;
    DeviationByMoments(xs, m);
    DeviationByMoments(xs + [x], p);
    MomentGrows(q, sum, k, m, p, y);
  }

  lemma LimitsGrow(xs: seq<int>, x: int)
    requires xs != []
    ensures Least(xs + [x]) == if x < Least(xs) then x else Least(xs)
    ensures Greatest(xs + [x]) == if x > Greatest(xs) then x else Greatest(xs)
  {
    assert (xs + [x])[..|xs|] == xs;
  }

  lemma OneSample(x: int)
    ensures Least([x]) == Greatest([x]) == x && IsMean(x as real, [x]) && Deviation([x], x as real) == 0.0
  {
    assert [x][..0] == [];
    assert (x as real) * 1.0 == x as real;
  }

  lemma Quotient(a: real, d: real)
    requires d > 0.0
    ensures a / d * d == a
  {
  }

  lemma MeanBetween(xs: seq<int>, m: real)
    requires xs != [] && IsMean(m, xs)
    ensures Least(xs) as real <= m <= Greatest(xs) as real
  {
    hide Sum;
    SumBounds(xs, Least(xs), Greatest(xs));
    Between(Least(xs), Greatest(xs), |xs|, Sum(xs), m);
  }

  lemma Between(lo: int, hi: int, n: nat, sum: int, m: real)
    requires n > 0 && lo * n <= sum <= hi * n && m * (n as real) == sum as real
    ensures lo as real <= m <= hi as real
  {
    Scaled(lo, m, n);
    Scaled(hi, m, n);
  }

  lemma Scaled(a: int, m: real, n: nat)
    requires n > 0
    ensures a as real <= m <==> (a * n) as real <= m * (n as real)
    ensures a as real >= m <==> (a * n) as real >= m * (n as real)
  {
    assert (a * n) as real == (a as real) * (n as real);
    assert (m - a as real) * (n as real) == m * (n as real) - (a as real) * (n as real);
  }

  class Mean {
    var last: int
    var n: nat
    var min: int
    var max: int
    var mean: real
    var s: real
    ghost var samples: seq<int>

    /** The running values are those of the whole sample. */
    ghost predicate Valid()
      reads this
    {
      && n == |samples|
      && (n > 0 ==>
        && last == samples[n - 1]
        && min == Least(samples) && max == Greatest(samples)
        && IsMean(mean, samples)
        && s == Deviation(samples, mean))
    }

    constructor ()
      ensures Valid() && samples == []
    {
      last, n, min, max, mean, s := 0, 0, 0, 0, 0.0, 0.0;
      samples := [];
    }

    /** sstMeanAdd. */
    method Add(x: int)
      requires Valid()
      modifies this
      ensures Valid() && samples == old(samples) + [x]
    {
      hide Deviation, NextMean, IsMean, Least, Greatest, Term;
      ghost var xs := samples;
      last := x;
      n := n + 1;
      samples := samples + [x];
      if n == 1 {
        min, max, mean, s := x, x, x as real, 0.0;
        assert samples == [x];
        OneSample(x);
      } else {
        if x > max { max := x; } else if x < min { min := x; }
        var pmean := mean;
        mean := NextMean(mean, n, x);
        s := s + Term(x as real, pmean, mean);
        LimitsGrow(xs, x);
        NextMeanIsMean(xs, x, pmean);
        DeviationGrows(xs, x, pmean, mean);
      }
    }

    /** sstVariance: the unbiased sample variance. */
    method Variance() returns (r: real)
      requires Valid()
      ensures n <= 1 ==> r == 0.0
      ensures n > 1 ==> r * ((n - 1) as real) == Deviation(samples, mean)
    {
      hide Deviation, IsMean, Least, Greatest;
      if n <= 1 { return 0.0; }
      Quotient(s, (n - 1) as real);
      return s / ((n - 1) as real);
    }

    /** The mean lies between the least and the greatest sample. */
    lemma MeanBounds()
      requires Valid() && n > 0
      ensures min as real <= mean <= max as real
    {
      hide Deviation;
      MeanBetween(samples, mean);
    }
  }

  // ---- linear smoothing ----

  /** Integer division rounding towards zero. */
  function Quot(a: int, b: int): int
    requires b > 0
  {
    if a >= 0 then a / b else -((-a) / b)
  }

  lemma Multiples(b: int, p: int, q: int)
    requires b > 0 && p < q
    ensures p * b + b <= q * b
  {
    assert q * b == (q - p - 1) * b + p * b + b;
  }

  lemma DivBetween(a: int, b: int, lo: int, hi: int)
    requires b > 0 && lo * b <= a <= hi * b
    ensures lo <= a / b <= hi
  {
    var q := a / b;
    assert q * b <= a < q * b + b;
    if q < lo {
      Multiples(b, q, lo);
    } else if hi < q {
      Multiples(b, hi, q);
    }
  }

  lemma QuotBetween(a: int, b: int, lo: int, hi: int)
    requires b > 0 && lo * b <= a <= hi * b
    ensures lo <= Quot(a, b) <= hi
  {
    if a >= 0 {
      DivBetween(a, b, lo, hi);
    } else {
      assert (-hi) * b == -(hi * b) && (-lo) * b == -(lo * b);
      DivBetween(-a, b, -hi, -lo);
    }
  }

  function Smoothed(val: int, x: int, alpha: int): int
    requires alpha >= 1
  {
    Quot(val * (alpha - 1) + x, alpha)
  }

  /** The new value times the weight is the old value counted alpha - 1 times and the sample once,
      up to a remainder below the weight that has the sign of the sum. */
  lemma SmoothedIsWeighted(val: int, x: int, alpha: int)
    requires alpha >= 1
    ensures
      var sum := val * (alpha - 1) + x;
      var rem := sum - alpha * Smoothed(val, x, alpha);
      -alpha < rem < alpha && (sum >= 0 ==> rem >= 0) && (sum <= 0 ==> rem <= 0)
  {
    var sum := val * (alpha - 1) + x;
    QuotRemainder(sum, alpha);
    hide Quot;
  }

  lemma QuotRemainder(a: int, b: int)
    requires b > 0
    ensures
      var rem := a - b * Quot(a, b);
      -b < rem < b && (a >= 0 ==> rem >= 0) && (a <= 0 ==> rem <= 0)
  {
    if a < 0 {
      assert -a == b * ((-a) / b) + (-a) % b;
      assert b * -((-a) / b) == -(b * ((-a) / b));
    }
  }

  /** A weighted mean of two numbers in a range stays in it, rounding included. */
  lemma SmoothedBetween(val: int, x: int, alpha: int, lo: int, hi: int)
    requires alpha >= 1 && lo <= val <= hi && lo <= x <= hi
    ensures lo <= Smoothed(val, x, alpha) <= hi
  {
    hide Quot;
    Monotone(lo, val, alpha - 1);
    Monotone(val, hi, alpha - 1);
    assert lo * (alpha - 1) + lo == lo * alpha && hi * (alpha - 1) + hi == hi * alpha;
    QuotBetween(val * (alpha - 1) + x, alpha, lo, hi);
  }

  // ---- smoothing in 32-bit arithmetic ----

  /** The update as the program computes it, every intermediate value in 32 bits. */
  function SmoothedInt(val: int, x: int, alpha: int): int
    requires alpha >= 1
  {
    Quot(ToInt(ToInt(val * (alpha - 1)) + x), alpha)
  }

  /** The sum that is divided fits 32 bits. */
  predicate Fits(val: int, x: int, alpha: int) {
    INT_MIN <= val * (alpha - 1) + x <= INT_MAX
  }

  lemma QuotNear(t: int, b: int)
    requires b > 0
    ensures t - b < b * Quot(t, b) < t + b
  {
  }

  /** Numbers 2^32 apart have different quotients. */
  lemma QuotsDiffer(t: int, u: int, b: int)
    requires 0 < b <= INT_MAX && t + 0x1_0000_0000 <= u
    ensures Quot(t, b) != Quot(u, b)
  {
    hide Quot;
    QuotNear(t, b);
    QuotNear(u, b);
  }

  /** The program's update is the exact one if and only if the sum fits 32 bits. */
  lemma SmoothedExactly(val: int, x: int, alpha: int)
    requires 1 <= alpha <= INT_MAX
    ensures SmoothedInt(val, x, alpha) == Smoothed(val, x, alpha) <==> Fits(val, x, alpha)
  {
    hide ToInt, Quot;
    var t := val * (alpha - 1) + x;
    SumReduces(val * (alpha - 1), x);
    FitsInt(t);
    OffByWord(t);
    if ToInt(t) <= t - 0x1_0000_0000 {
      QuotsDiffer(ToInt(t), t, alpha);
    } else if ToInt(t) >= t + 0x1_0000_0000 {
      QuotsDiffer(t, ToInt(t), alpha);
    }
  }

  /** Values and samples of at most bound, with bound times the weight within 32 bits, fit. */
  lemma BoundedFits(val: int, x: int, alpha: int, bound: int)
    requires alpha >= 1 && -bound <= val <= bound && -bound <= x <= bound && bound * alpha <= INT_MAX
    ensures Fits(val, x, alpha)
  {
    var k := alpha - 1;
    Monotone(val, bound, k);
    Monotone(-bound, val, k);
    assert (-bound) * k == -(bound * k) && bound * alpha == bound * k + bound;
  }

  lemma SmoothedFitsInt(val: int, x: int, alpha: int, bound: int)
    requires 1 <= alpha <= INT_MAX && -bound <= val <= bound && -bound <= x <= bound && bound * alpha <= INT_MAX
    ensures SmoothedInt(val, x, alpha) == Smoothed(val, x, alpha)
  {
    hide SmoothedInt, Smoothed, Fits;
    BoundedFits(val, x, alpha, bound);
    SmoothedExactly(val, x, alpha);
  }

  lemma Monotone(a: int, b: int, k: nat)
    requires a <= b
    ensures a * k <= b * k
  {
  }

  /** The sample without the zeros it starts with: until a non-zero sample arrives the state
      looks like the initial one, and the next sample starts afresh. */
  function Trimmed(xs: seq<int>): (z: seq<int>)
    ensures z != [] ==> z[0] != 0
    ensures forall x :: x in z ==> x in xs
  {
    if xs == [] || xs[0] != 0 then xs else Trimmed(xs[1..])
  }

  lemma {:induction false} TrimmedGrows(xs: seq<int>, x: int)
    ensures
      Trimmed(xs + [x])
      == if Trimmed(xs) == [] then (if x == 0 then [] else [x]) else Trimmed(xs) + [x]
  {
    if xs == [] {
      assert [x][1..] == [];
    } else {
      assert (xs + [x])[1..] == xs[1..] + [x];
      TrimmedGrows(xs[1..], x);
    }
  }

  // ---- the smoothed value of a whole sample ----

  /** The value the program holds after the samples xs. */
  function Val(alpha: int, xs: seq<int>): int
    requires alpha >= 1
  {
    if xs == [] then 0
    else
      var ys, x := xs[..|xs| - 1], xs[|xs| - 1];
      if Trimmed(ys) == [] then x else SmoothedInt(Val(alpha, ys), x, alpha)
  }

  /** The value in unbounded integers. */
  function Ideal(alpha: int, xs: seq<int>): int
    requires alpha >= 1
  {
    if xs == [] then 0
    else
      var ys, x := xs[..|xs| - 1], xs[|xs| - 1];
      if Trimmed(ys) == [] then x else Smoothed(Ideal(alpha, ys), x, alpha)
  }

  /** Every update of the run fits 32 bits. */
  predicate AllFit(alpha: int, xs: seq<int>)
    requires alpha >= 1
  {
    xs != [] ==>
      var ys, x := xs[..|xs| - 1], xs[|xs| - 1];
      AllFit(alpha, ys) && (Trimmed(ys) == [] || Fits(Val(alpha, ys), x, alpha))
  }

  lemma {:induction false} ValIsIdeal(alpha: int, xs: seq<int>)
    requires 1 <= alpha <= INT_MAX && AllFit(alpha, xs)
    ensures Val(alpha, xs) == Ideal(alpha, xs)
  {
    if xs != [] {
      hide SmoothedInt, Smoothed, Fits, Trimmed;
      var n := |xs| - 1;
      ValIsIdeal(alpha, xs[..n]);
      SmoothedExactly(Val(alpha, xs[..n]), xs[n], alpha);
    }
  }

  /** Over a whole run the program's value is the unbounded one after every sample if and only if
      every update fits 32 bits. */
  lemma {:induction false} RunIsExact(alpha: int, xs: seq<int>)
    requires 1 <= alpha <= INT_MAX
    ensures AllFit(alpha, xs) <==> Agrees(alpha, xs)
    ensures AllFit(alpha, xs) <==> forall m :: 0 <= m <= |xs| ==> Val(alpha, xs[..m]) == Ideal(alpha, xs[..m])
  {
    hide Agrees, AllFit, Val, Ideal;
    if xs == [] {
      NoSamples(alpha);
    } else {
      RunIsExact(alpha, xs[..|xs| - 1]);
      AgreesNext(alpha, xs);
      FitsNext(alpha, xs);
    }
    AgreesIs(alpha, xs);
  }

  /** The program's value is the unbounded one after every sample. */
  ghost predicate Agrees(alpha: int, xs: seq<int>)
    requires alpha >= 1
  {
    forall m :: 0 <= m <= |xs| ==> Val(alpha, xs[..m]) == Ideal(alpha, xs[..m])
  }

  lemma AgreesIs(alpha: int, xs: seq<int>)
    requires alpha >= 1
    ensures Agrees(alpha, xs) <==> forall m :: 0 <= m <= |xs| ==> Val(alpha, xs[..m]) == Ideal(alpha, xs[..m])
  {
    hide Val, Ideal;
  }

  lemma NoSamples(alpha: int)
    requires alpha >= 1
    ensures Agrees(alpha, []) && AllFit(alpha, [])
  {
  }

  lemma AgreesNext(alpha: int, xs: seq<int>)
    requires alpha >= 1 && xs != []
    ensures Agrees(alpha, xs) <==> Agrees(alpha, xs[..|xs| - 1]) && Val(alpha, xs) == Ideal(alpha, xs)
  {
    hide Val, Ideal;
    var ys := xs[..|xs| - 1];
    assert forall m :: 0 <= m <= |ys| ==> ys[..m] == xs[..m];
    assert xs[..|xs|] == xs;
  }

  /** From equal values, the next ones are equal exactly when the update fits. */
  lemma FitsNext(alpha: int, xs: seq<int>)
    requires 1 <= alpha <= INT_MAX && xs != []
    ensures
      var ys := xs[..|xs| - 1];
      Agrees(alpha, ys) && AllFit(alpha, ys) ==> (Val(alpha, xs) == Ideal(alpha, xs) <==> AllFit(alpha, xs))
    ensures AllFit(alpha, xs) ==> AllFit(alpha, xs[..|xs| - 1])
  {
    hide SmoothedInt, Smoothed, Fits, Trimmed;
    var n := |xs| - 1;
    var ys, x := xs[..n], xs[n];
    assert ys[..n] == ys;
    SmoothedExactly(Val(alpha, ys), x, alpha);
  }

  /** Samples within a bound whose product with the weight fits never overflow. */
  lemma {:induction false} BoundedRunFits(alpha: int, xs: seq<int>, bound: int)
    requires 1 <= alpha <= INT_MAX && 0 <= bound && bound * alpha <= INT_MAX
    requires forall i :: 0 <= i < |xs| ==> -bound <= xs[i] <= bound
    ensures AllFit(alpha, xs) && -bound <= Val(alpha, xs) <= bound
  {
    if xs != [] {
      hide SmoothedInt, Smoothed, Fits, Trimmed;
      var n := |xs| - 1;
      var v, x := Val(alpha, xs[..n]), xs[n];
      BoundedRunFits(alpha, xs[..n], bound);
      BoundedFits(v, x, alpha, bound);
      SmoothedExactly(v, x, alpha);
      SmoothedBetween(v, x, alpha, -bound, bound);
    }
  }

  /** Until a non-zero sample arrives the value is zero. */
  lemma ValOfZeros(alpha: int, xs: seq<int>)
    requires alpha >= 1 && Trimmed(xs) == []
    ensures Val(alpha, xs) == 0
  {
    if xs != [] {
      var n := |xs| - 1;
      TrimmedGrows(xs[..n], xs[n]);
      assert xs[..n] + [xs[n]] == xs;
    }
  }

  /** Without overflow the value lies between the least and the greatest sample, leading zeros
      aside. */
  lemma {:induction false} ValBetween(alpha: int, xs: seq<int>)
    requires 1 <= alpha <= INT_MAX && AllFit(alpha, xs) && Trimmed(xs) != []
    ensures Least(Trimmed(xs)) <= Val(alpha, xs) <= Greatest(Trimmed(xs))
  {
    hide SmoothedInt, Smoothed, Fits, Trimmed, Least, Greatest;
    EmptyTrimmed(xs);
    var n := |xs| - 1;
    var ys, x := xs[..n], xs[n];
    assert xs == ys + [x];
    TrimmedGrows(ys, x);
    var z := Trimmed(ys);
    if z == [] {
      OneSample(x);
    } else {
      ValBetween(alpha, ys);
      LimitsGrow(z, x);
      SmoothedExactly(Val(alpha, ys), x, alpha);
      SmoothedBetween(Val(alpha, ys), x, alpha, Least(z + [x]), Greatest(z + [x]));
    }
  }

  /** Two samples of 2^29 with weight 8: the sum is 2^32, the value 0, below both samples. */
  lemma SmoothedWraps()
    ensures
      var xs := [0x2000_0000, 0x2000_0000];
      Val(8, xs) == 0 && Ideal(8, xs) == 0x2000_0000 && !AllFit(8, xs)
  {
    hide Val, Ideal, AllFit, Trimmed;
    TwoSamples(8, 0x2000_0000);
  }

  /** Value and exactness after the same non-zero sample twice. */
  lemma TwoSamples(alpha: int, x: int)
    requires alpha >= 1 && x != 0
    ensures
      var xs := [x, x];
      && Val(alpha, xs) == SmoothedInt(x, x, alpha) && Ideal(alpha, xs) == Smoothed(x, x, alpha)
      && (AllFit(alpha, xs) <==> Fits(x, x, alpha))
  {
    hide SmoothedInt, Smoothed, Fits;
    var xs := [x, x];
    assert xs[..1] == [x] && [x][..0] == [];
    assert Trimmed([x]) == [x] && Trimmed([]) == [];
    assert AllFit(alpha, []) && AllFit(alpha, [x]) && Val(alpha, [x]) == x;
  }

  // ---- limits ----

  /** The least and the greatest sample. */
  ghost predicate Limits(z: seq<int>, min: int, max: int) {
    if z == [] then min == max == 0
    else min == Least(z) && max == Greatest(z)
  }

  /** The all-zero state is that of a sample without non-zero numbers. */
  lemma Afresh(z: seq<int>, min: int, max: int, val: int)
    requires Limits(z, min, max) && (z != [] ==> z[0] != 0) && (z == [] ==> val == 0)
    ensures val == 0 && min == 0 && max == 0 <==> z == []
    ensures min <= max
  {
    if z != [] {
      assert min <= z[0] <= max;
    }
  }

  lemma LimitsStart(x: int)
    ensures Limits(if x == 0 then [] else [x], x, x)
  {
    OneSample(x);
  }

  lemma LimitsNext(z: seq<int>, min: int, max: int, x: int)
    requires z != [] && Limits(z, min, max)
    ensures Limits(z + [x], if x < min then x else min, if x > max then x else max)
  {
    hide Least, Greatest;
    LimitsGrow(z, x);
  }

  /** The weight in use: 8 unless another one was set. */
  function Weight(alpha: int): int {
    if alpha == 0 then 8 else alpha
  }

  class LinSmooth {
    var alpha: int
    var n: nat
    var min: int
    var max: int
    var val: int
    ghost var samples: seq<int>

    ghost predicate Valid()
      reads this
    {
      && n == |samples| && 0 <= alpha <= INT_MAX && (n > 0 ==> alpha >= 1)
      && Limits(Trimmed(samples), min, max)
      && val == Val(Weight(alpha), samples)
    }

    constructor (alpha: int)
      requires 0 <= alpha <= INT_MAX
      ensures Valid() && samples == [] && this.alpha == alpha
    {
      this.alpha := alpha;
      n, min, max, val := 0, 0, 0, 0;
      samples := [];
    }

    /** sstLinSmoothAdd, in the program's 32-bit arithmetic. */
    method Add(x: int)
      requires Valid()
      modifies this
      ensures Valid() && samples == old(samples) + [x]
      ensures alpha == Weight(old(alpha))
    {
      hide Limits, SmoothedInt, Trimmed, Val;
      ghost var z := Trimmed(samples);
      TrimmedGrows(samples, x);
      if z == [] { ValOfZeros(Weight(alpha), samples); }
      Afresh(z, min, max, val);
      NextVal(Weight(alpha), samples, x);
      if val == 0 && min == 0 && max == 0 {
        val, min, max := x, x, x;
        if alpha == 0 { alpha := 8; }
        LimitsStart(x);
      } else {
        EmptyTrimmed(samples);
        LimitsNext(z, min, max, x);
        MinMaxAdd(x);
        val := SmoothedInt(val, x, alpha);
      }
      n := n + 1;
      samples := samples + [x];
    }

    /** sstMinMaxAdd, on limits that are in order. */
    method MinMaxAdd(x: int)
      requires min <= max
      modifies this`min, this`max
      ensures min == if x < old(min) then x else old(min)
      ensures max == if x > old(max) then x else old(max)
    {
      if x > max { max := x; } else if x < min { min := x; }
    }

    /** With all samples and the next one within the bound, the next update is exact. */
    lemma NextFitsInt(x: int, bound: int)
      requires Valid() && n > 0 && -bound <= x <= bound && bound * alpha <= INT_MAX
      requires forall i :: 0 <= i < n ==> -bound <= samples[i] <= bound
      ensures SmoothedInt(val, x, alpha) == Smoothed(val, x, alpha)
    {
      hide SmoothedInt, Smoothed, Trimmed, Val, AllFit, Limits;
      BoundedRunFits(alpha, samples, bound);
      SmoothedFitsInt(val, x, alpha, bound);
    }

    /** While no update overflows, the smoothed value lies between the least and the greatest
        sample. */
    lemma ValBetweenSamples()
      requires Valid() && n > 0 && AllFit(alpha, samples)
      ensures Least(samples) <= val <= Greatest(samples)
    {
      var z := Trimmed(samples);
      if z == [] {
        TrimmedAway(samples);
        ValOfZeros(alpha, samples);
      } else {
        ValBetween(alpha, samples);
        assert Least(z) in samples && Greatest(z) in samples;
      }
    }
  }

  lemma NextVal(alpha: int, xs: seq<int>, x: int)
    requires alpha >= 1
    ensures Val(alpha, xs + [x]) == if Trimmed(xs) == [] then x else SmoothedInt(Val(alpha, xs), x, alpha)
  {
    hide SmoothedInt, Trimmed;
    assert (xs + [x])[..|xs|] == xs;
  }

  lemma EmptyTrimmed(xs: seq<int>)
    ensures xs == [] ==> Trimmed(xs) == []
  {
  }

  lemma {:induction false} TrimmedAway(xs: seq<int>)
    requires Trimmed(xs) == []
    ensures forall i :: 0 <= i < |xs| ==> xs[i] == 0
  {
    if xs != [] {
      TrimmedAway(xs[1..]);
    }
  }
}
