/** The column statistics the pipeline uses: pandas' `median`, `mode` and
    linear-interpolation `quantile`, and the mean and population variance that
    `StandardScaler` fits. All of them skip missing cells, so they take the
    present values only. */
module Stats {
  import opened Ordering

  datatype Option<T> = None | Some(value: T)

  /** The fractional position (n - 1) * q of quantile q among n sorted values. */
  function Position(n: nat, q: real): (h: real)
    requires n > 0 && 0.0 <= q <= 1.0
    ensures 0.0 <= h <= (n - 1) as real
  {
    ScaleBelow((n - 1) as real, q);
    (n - 1) as real * q
  }

  lemma {:induction false} PositionMonotone(n: nat, p: real, q: real)
    requires n > 0 && 0.0 <= p <= q <= 1.0
    ensures Position(n, p) <= Position(n, q)
  {
    MulMonotone((n - 1) as real, p, q);
  }

  /** The point at weight t of the way from lo to hi. */
  function Lerp(lo: real, hi: real, t: real): real
  {
    lo + t * (hi - lo)
  }

  /** Quantile `q` of ascending `x` with linear interpolation (numpy's and
      pandas' default): at position h = (n - 1) * q, interpolate between
      x[floor(h)] and the next value. */
  function Quantile(x: seq<real>, q: real): (v: real)
    requires |x| > 0 && 0.0 <= q <= 1.0
  {
    var h := Position(|x|, q);
    var k := h.Floor;
    var next := if k + 1 < |x| then x[k + 1] else x[k];
    Lerp(x[k], next, h - k as real)
  }

  lemma {:induction false} ScaleBelow(a: real, q: real)
    requires 0.0 <= a && 0.0 <= q <= 1.0
    ensures 0.0 <= a * q <= a
  {
  }

  lemma {:induction false} MulMonotone(a: real, p: real, q: real)
    requires 0.0 <= a && p <= q
    ensures a * p <= a * q
  {
  }

  /** Interpolating between lo <= hi with weight t in [0, 1] stays in [lo, hi]. */
  lemma {:induction false} LerpBetween(lo: real, hi: real, t: real)
    requires lo <= hi && 0.0 <= t <= 1.0
    ensures lo <= Lerp(lo, hi, t) <= hi
  {
    var d := hi - lo;
    assert t * d >= 0.0;
    assert d - t * d == (1.0 - t) * d;
    assert (1.0 - t) * d >= 0.0;
  }

  /** Interpolation is monotone in its weight. */
  lemma {:induction false} LerpMonotone(lo: real, hi: real, s: real, t: real)
    requires lo <= hi && s <= t
    ensures Lerp(lo, hi, s) <= Lerp(lo, hi, t)
  {
    var d := hi - lo;
    assert t * d - s * d == (t - s) * d;
    assert (t - s) * d >= 0.0;
  }

  /** A quantile lies between the smallest and the largest value. */
  lemma {:induction false} QuantileBounds(x: seq<real>, q: real)
    requires |x| > 0 && 0.0 <= q <= 1.0 && SortedReals(x)
    ensures x[0] <= Quantile(x, q) <= x[|x| - 1]
  {
    var h := Position(|x|, q);
    var k := h.Floor;
    var next := if k + 1 < |x| then x[k + 1] else x[k];
    LerpBetween(x[k], next, h - k as real);
  }

  /** Quantiles are monotone in q; in particular Q1 <= Q3. */
  lemma {:induction false} QuantileMonotone(x: seq<real>, p: real, q: real)
    requires |x| > 0 && SortedReals(x)
    requires 0.0 <= p <= q <= 1.0
    ensures Quantile(x, p) <= Quantile(x, q)
  {
    var n := |x|;
    var hp, hq := Position(n, p), Position(n, q);
    PositionMonotone(n, p, q);
    var kp, kq := hp.Floor, hq.Floor;
    var nextP := if kp + 1 < n then x[kp + 1] else x[kp];
    var nextQ := if kq + 1 < n then x[kq + 1] else x[kq];
    if kp == kq {
      LerpMonotone(x[kp], nextP, hp - kp as real, hq - kq as real);
    } else {
      LerpBetween(x[kp], nextP, hp - kp as real);
      LerpBetween(x[kq], nextQ, hq - kq as real);
      assert nextP == x[kp + 1] && x[kp + 1] <= x[kq];
    }
  }

  /** `Series.median()` over the present values: the middle value of the
      sorted values, or the mean of the two middle ones for an even count;
      None (NaN) when there is no value. */
  function Median(s: seq<real>): (m: Option<real>)
    ensures m.None? <==> |s| == 0
  {
    if |s| == 0 then None else Some(Middle(SortReals(s)))
  }

  /** The middle value of `x`, or the mean of the two middle values when |x|
      is even: one value is peeled off each end until one or two remain. */
  function Middle(x: seq<real>): real
    requires |x| > 0
    decreases |x|
  {
    if |x| == 1 then x[0]
    else if |x| == 2 then (x[0] + x[1]) / 2.0
    else Middle(x[1..|x| - 1])
  }

  /** The middle value sits at index n / 2, or is the mean of indices n / 2 - 1 and n / 2. */
  lemma {:induction false} MiddleAt(x: seq<real>)
    requires |x| > 0
    ensures |x| % 2 == 1 ==> Middle(x) == x[|x| / 2]
    ensures |x| % 2 == 0 ==> Middle(x) == (x[|x| / 2 - 1] + x[|x| / 2]) / 2.0
  {
    if |x| > 2 {
      var y := x[1..|x| - 1];
      MiddleAt(y);
      assert |y| / 2 + 1 == |x| / 2;
    }
  }

  /** The median is the 0.5 quantile: the two definitions pandas offers agree. */
  lemma {:induction false} MedianIsHalfQuantile(s: seq<real>)
    requires |s| > 0
    ensures Median(s) == Some(Quantile(SortReals(s), 0.5))
  {
    MiddleIsHalfQuantile(SortReals(s));
  }

  lemma {:induction false} MiddleIsHalfQuantile(x: seq<real>)
    requires |x| > 0
    ensures Middle(x) == Quantile(x, 0.5)
  {
    var n := |x|;
    var k := n / 2;
    MiddleAt(x);
    if n % 2 == 1 {
      HalfOdd(n, k);
      FloorOf(Position(n, 0.5), k);
    } else {
      HalfEven(n, k);
      FloorOf(Position(n, 0.5), k - 1);
      LerpHalf(x[k - 1], x[k]);
    }
  }

  lemma {:induction false} HalfOdd(n: nat, k: int)
    requires n == 2 * k + 1
    ensures Position(n, 0.5) == k as real
  {
  }

  lemma {:induction false} HalfEven(n: nat, k: int)
    requires n == 2 * k && n > 0
    ensures Position(n, 0.5) == (k - 1) as real + 0.5
  {
  }

  lemma {:induction false} FloorOf(h: real, k: int)
    requires k as real <= h < k as real + 1.0
    ensures h.Floor == k
  {
  }

  lemma {:induction false} LerpHalf(lo: real, hi: real)
    ensures Lerp(lo, hi, 0.5) == (lo + hi) / 2.0
  {
  }

  /** For an even count the median is the mean of the two middle values:
      the ages 22, 38, 26 and 35 have median 30.5. */
  lemma {:induction false} MedianOfFourAges()
    ensures Median([22.0, 38.0, 26.0, 35.0]) == Some(30.5)
  {
    MedianOfFour([22.0, 38.0, 26.0, 35.0], 22.0, 26.0, 35.0, 38.0);
  }

  /** The median of four distinct values is the mean of the middle two. */
  lemma {:induction false} MedianOfFour(s: seq<real>, a: real, b: real, c: real, d: real)
    requires a < b < c < d && |s| == 4
    requires forall v :: v in s <==> v == a || v == b || v == c || v == d
    ensures Median(s) == Some((b + c) / 2.0)
  {
    SortedOfFour(SortReals(s), s, a, b, c, d);
    MiddleOfFour(SortReals(s));
  }

  lemma {:induction false} MiddleOfFour(x: seq<real>)
    requires |x| == 4
    ensures Middle(x) == (x[1] + x[2]) / 2.0
  {
    var y := x[1..3];
    assert y[0] == x[1] && y[1] == x[2];
    assert Middle(x) == Middle(y);
  }

  /** Sorting four distinct values puts them in increasing order. */
  lemma {:induction false} SortedOfFour(x: seq<real>, s: seq<real>, a: real, b: real, c: real, d: real)
    requires a < b < c < d && |s| == 4
    requires forall v :: v in s <==> v == a || v == b || v == c || v == d
    requires SortedReals(x) && multiset(x) == multiset(s)
    ensures |x| == 4 && x[0] == a && x[1] == b && x[2] == c && x[3] == d
  {
    assert |x| == 4 by { assert |multiset(x)| == |multiset(s)|; }
    assert forall v :: v in x <==> v in s by {
      forall v ensures v in x <==> v in s {
        assert v in x <==> v in multiset(x);
        assert v in s <==> v in multiset(s);
      }
    }
    assert forall k :: 0 <= k < 4 ==> a <= x[k] <= d by {
      forall k | 0 <= k < 4 ensures a <= x[k] <= d {
        assert x[k] in x;
      }
    }
    assert a in s && b in s && c in s && d in s;
    var i :| 0 <= i < 4 && x[i] == a;
    var j :| 0 <= j < 4 && x[j] == b;
    var k :| 0 <= k < 4 && x[k] == c;
    var l :| 0 <= l < 4 && x[l] == d;
    assert x[0] <= x[i] && x[l] <= x[3];
    assert i < j < k < l;
  }

  /** The median lies between the smallest and the largest value. */
  lemma {:induction false} MedianBounds(s: seq<real>)
    requires |s| > 0
    ensures SortReals(s)[0] <= Median(s).value <= SortReals(s)[|s| - 1]
  {
    MedianIsHalfQuantile(s);
    QuantileBounds(SortReals(s), 0.5);
  }

  /** `m` is what `Series.mode()[0]` returns for the values `s`: a value of
      highest frequency, and the smallest such value in Python's order. */
  predicate IsMode(m: string, s: seq<string>)
  {
    m in s &&
    forall v :: v in s ==>
      multiset(s)[v] < multiset(s)[m] || (multiset(s)[v] == multiset(s)[m] && StrLe(m, v))
  }

  /** The best of `cands` by frequency in `s`, ties going to the smaller value. */
  function ModeAmong(cands: seq<string>, s: seq<string>): (m: string)
    requires |cands| > 0
    ensures m in cands
    ensures forall v :: v in cands ==>
      multiset(s)[v] < multiset(s)[m] || (multiset(s)[v] == multiset(s)[m] && StrLe(m, v))
  {
    StrLeTotalOrder();
    if |cands| == 1 then cands[0]
    else
      var b := ModeAmong(cands[1..], s);
      var c := cands[0];
      assert cands == [c] + cands[1..];
      if multiset(s)[c] > multiset(s)[b] || (multiset(s)[c] == multiset(s)[b] && StrLe(c, b)) then c else b
  }

  /** `Series.mode()[0]` over the present values. */
  function Mode(s: seq<string>): (m: string)
    requires |s| > 0
    ensures IsMode(m, s)
  {
    ModeAmong(s, s)
  }

  /** There is only one such value, so the mode is well defined. */
  lemma {:induction false} ModeUnique(m1: string, m2: string, s: seq<string>)
    requires IsMode(m1, s) && IsMode(m2, s)
    ensures m1 == m2
  {
    StrLeAntisym(m1, m2);
  }

  function Sum(s: seq<real>): real
  {
    if |s| == 0 then 0.0 else Sum(s[..|s| - 1]) + s[|s| - 1]
  }

  /** The arithmetic mean (0 for no values, where it is never used). */
  function Mean(s: seq<real>): real
  {
    if |s| == 0 then 0.0 else Sum(s) / |s| as real
  }

  /** The deviations of the values from `m`. */
  function Deviations(s: seq<real>, m: real): (r: seq<real>)
    ensures |r| == |s|
    decreases |s|
  {
    if |s| == 0 then [] else Deviations(s[..|s| - 1], m) + [s[|s| - 1] - m]
  }

  /** The squared deviations of the values from `m`. */
  function Squares(s: seq<real>, m: real): (r: seq<real>)
    ensures |r| == |s|
    decreases |s|
  {
    if |s| == 0 then [] else Squares(s[..|s| - 1], m) + [(s[|s| - 1] - m) * (s[|s| - 1] - m)]
  }

  /** Sum of squared deviations from `m`. */
  function SquaredDeviations(s: seq<real>, m: real): real
  {
    Sum(Squares(s, m))
  }

  /** Population variance, as `StandardScaler` fits it. */
  function Variance(s: seq<real>): real
  {
    if |s| == 0 then 0.0 else SquaredDeviations(s, Mean(s)) / |s| as real
  }

  /** The affine map v |-> (v - m) / d applied to every value. */
  function Standardised(s: seq<real>, m: real, d: real): (r: seq<real>)
    requires d != 0.0
    ensures |r| == |s|
    decreases |s|
  {
    if |s| == 0 then [] else Standardised(s[..|s| - 1], m, d) + [(s[|s| - 1] - m) / d]
  }

  // Each step of arithmetic below is a lemma of its own over plain numbers,
  // and each induction over a sequence only adds: the two never meet in one
  // proof obligation.

  lemma {:induction false} QuotientTimes(a: real, d: real, q: real)
    requires d != 0.0 && q == a / d
    ensures q * d == a
  {
  }

  lemma {:induction false} SquareTimes(a: real, d: real, q: real, c: real)
    requires q * d == a && c == d * d
    ensures (q - 0.0) * (q - 0.0) * c == a * a
  {
  }

  lemma {:induction false} ScaledSnoc(sz: real, ss: real, p: real, q: real, a: real, e: real, c: real)
    requires sz == p + a && ss == q + e
    requires p * c == q && a * c == e
    ensures sz * c == ss
  {
  }

  lemma {:induction false} CountStep(r: real, j: real, k: real, m: real)
    requires j + 1.0 == k && r == j * m
    ensures r + m == k * m
  {
  }

  lemma {:induction false} CountTimesMean(total: real, n: real, mean: real)
    requires n > 0.0 && mean == total / n
    ensures n * mean == total
  {
  }

  lemma {:induction false} ZeroFactor(x: real, d: real)
    requires d != 0.0 && x * d == 0.0
    ensures x == 0.0
  {
  }

  lemma {:induction false} Cancel(x: real, c: real, n: real)
    requires c > 0.0 && x * c == c * n
    ensures x == n
  {
    assert (x - n) * c == 0.0;
  }

  lemma {:induction false} UnitFromParts(vz: real, sdz: real, vs: real, sds: real, c: real, n: real)
    requires n > 0.0 && c > 0.0 && c == vs
    requires vz == sdz / n && vs == sds / n && sdz * c == sds
    ensures vz == 1.0
  {
    assert sds == c * n;
    Cancel(sdz, c, n);
  }

  /** `y` is `x` with every value multiplied by `c`. */
  predicate ScaledBy(x: seq<real>, y: seq<real>, c: real)
    decreases |x|
  {
    && |x| == |y|
    && (|x| == 0 ||
        (ScaledBy(x[..|x| - 1], y[..|x| - 1], c) && x[|x| - 1] * c == y[|x| - 1]))
  }

  /** Scaling every value scales the sum. */
  lemma {:induction false} SumScaled(x: seq<real>, y: seq<real>, c: real)
    requires ScaledBy(x, y, c)
    ensures Sum(x) * c == Sum(y)
    decreases |x|
  {
    if |x| > 0 {
      var n := |x|;
      SumScaled(x[..n - 1], y[..n - 1], c);
      ScaledSnoc(Sum(x), Sum(y), Sum(x[..n - 1]), Sum(y[..n - 1]), x[n - 1], y[n - 1], c);
    }
  }

  /** `n` copies of `m` added up: n * m built from additions alone. */
  function Repeat(n: nat, m: real): real
  {
    if n == 0 then 0.0 else Repeat(n - 1, m) + m
  }

  lemma {:induction false} RepeatTimes(n: nat, m: real)
    ensures Repeat(n, m) == n as real * m
  {
    if n > 0 {
      RepeatTimes(n - 1, m);
      CountStep(Repeat(n - 1, m), (n - 1) as real, n as real, m);
    }
  }

  /** The deviations from `m` add up to the sum less |s| copies of `m`. */
  lemma {:induction false} SumDeviations(s: seq<real>, m: real)
    ensures Sum(Deviations(s, m)) == Sum(s) - Repeat(|s|, m)
  {
    if |s| > 0 {
      SumDeviations(s[..|s| - 1], m);
      DeviationsPrefix(s, m);
    }
  }

  lemma {:induction false} DeviationsPrefix(s: seq<real>, m: real)
    requires |s| > 0
    ensures Deviations(s, m)[..|s| - 1] == Deviations(s[..|s| - 1], m)
  {
    var init := Deviations(s[..|s| - 1], m);
    assert Deviations(s, m) == init + [s[|s| - 1] - m];
    assert (init + [s[|s| - 1] - m])[..|s| - 1] == init;
  }

  lemma {:induction false} SquaresPrefix(s: seq<real>, m: real)
    requires |s| > 0
    ensures Squares(s, m)[..|s| - 1] == Squares(s[..|s| - 1], m)
  {
    var init := Squares(s[..|s| - 1], m);
    assert Squares(s, m) == init + [(s[|s| - 1] - m) * (s[|s| - 1] - m)];
    assert (init + [(s[|s| - 1] - m) * (s[|s| - 1] - m)])[..|s| - 1] == init;
  }

  lemma {:induction false} StandardisedPrefix(s: seq<real>, m: real, d: real)
    requires d != 0.0 && |s| > 0
    ensures Standardised(s, m, d)[..|s| - 1] == Standardised(s[..|s| - 1], m, d)
  {
    var init := Standardised(s[..|s| - 1], m, d);
    assert Standardised(s, m, d) == init + [(s[|s| - 1] - m) / d];
    assert (init + [(s[|s| - 1] - m) / d])[..|s| - 1] == init;
  }

  lemma {:induction false} StandardisedLast(s: seq<real>, m: real, d: real)
    requires d != 0.0 && |s| > 0
    ensures Standardised(s, m, d)[|s| - 1] * d == Deviations(s, m)[|s| - 1]
  {
    QuotientTimes(s[|s| - 1] - m, d, Standardised(s, m, d)[|s| - 1]);
  }

  lemma {:induction false} StandardisedLastSquare(s: seq<real>, m: real, d: real, c: real)
    requires d != 0.0 && |s| > 0 && c == d * d
    ensures Squares(Standardised(s, m, d), 0.0)[|s| - 1] * c == Squares(s, m)[|s| - 1]
  {
    var q := Standardised(s, m, d)[|s| - 1];
    var a := s[|s| - 1] - m;
    QuotientTimes(a, d, q);
    SquareTimes(a, d, q, c);
  }

  /** Each standardised value, times d, is the deviation it came from. */
  lemma {:induction false} StandardisedScaled(s: seq<real>, m: real, d: real)
    requires d != 0.0
    ensures ScaledBy(Standardised(s, m, d), Deviations(s, m), d)
    decreases |s|
  {
    if |s| > 0 {
      StandardisedScaled(s[..|s| - 1], m, d);
      StandardisedPrefix(s, m, d);
      DeviationsPrefix(s, m);
      StandardisedLast(s, m, d);
    }
  }

  /** Each squared standardised value, times c = d * d, is the squared
      deviation it came from. */
  lemma {:induction false} StandardisedSquares(s: seq<real>, m: real, d: real, c: real)
    requires d != 0.0 && c == d * d
    ensures ScaledBy(Squares(Standardised(s, m, d), 0.0), Squares(s, m), c)
    decreases |s|
  {
    if |s| > 0 {
      StandardisedSquares(s[..|s| - 1], m, d, c);
      StandardisedPrefix(s, m, d);
      SquaresPrefix(Standardised(s, m, d), 0.0);
      SquaresPrefix(s, m);
      StandardisedLastSquare(s, m, d, c);
    }
  }

  /** Values that, scaled by a nonzero `d`, add up to 0 have mean 0. */
  lemma {:induction false} MeanOfScaled(z: seq<real>, y: seq<real>, d: real)
    requires d != 0.0 && ScaledBy(z, y, d) && Sum(y) == 0.0
    ensures Mean(z) == 0.0
  {
    SumScaled(z, y, d);
    ZeroFactor(Sum(z), d);
  }

  /** The deviations from the mean add up to 0. */
  lemma {:induction false} DeviationsFromMean(s: seq<real>)
    ensures Sum(Deviations(s, Mean(s))) == 0.0
  {
    SumDeviations(s, Mean(s));
    if |s| > 0 {
      RepeatTimes(|s|, Mean(s));
      CountTimesMean(Sum(s), |s| as real, Mean(s));
    }
  }

  /** Standardising by the mean gives values whose mean is 0. */
  lemma {:induction false} StandardisedMeanZero(s: seq<real>, d: real)
    requires d != 0.0
    ensures Mean(Standardised(s, Mean(s), d)) == 0.0
  {
    StandardisedScaled(s, Mean(s), d);
    DeviationsFromMean(s);
    MeanOfScaled(Standardised(s, Mean(s), d), Deviations(s, Mean(s)), d);
  }

  lemma {:induction false} SquaredDeviationsScaled(z: seq<real>, s: seq<real>, m: real, c: real)
    requires ScaledBy(Squares(z, 0.0), Squares(s, m), c)
    ensures SquaredDeviations(z, 0.0) * c == SquaredDeviations(s, m)
  {
    SumScaled(Squares(z, 0.0), Squares(s, m), c);
  }

  /** Rescaling by d divides the squared deviations by c = d * d. */
  lemma {:induction false} SquaredDeviationsStandardised(s: seq<real>, m: real, d: real, c: real, z: seq<real>)
    requires d != 0.0 && c == d * d && z == Standardised(s, m, d)
    ensures SquaredDeviations(z, 0.0) * c == SquaredDeviations(s, m)
  {
    StandardisedSquares(s, m, d, c);
    SquaredDeviationsScaled(z, s, m, c);
  }

  lemma {:induction false} VarianceIsMeanSquare(s: seq<real>)
    requires |s| > 0
    ensures Variance(s) == SquaredDeviations(s, Mean(s)) / |s| as real
  {
  }

  /** The variance of standardised values is their mean square. */
  lemma {:induction false} VarianceStandardised(s: seq<real>, d: real, z: seq<real>)
    requires d != 0.0 && |s| > 0 && z == Standardised(s, Mean(s), d)
    ensures Variance(z) == SquaredDeviations(z, 0.0) / |s| as real
  {
    StandardisedMeanZero(s, d);
  }

  /** Values `z` whose squared deviations times the variance of `s` are those
      of `s`, and whose variance is their mean square, have variance 1. */
  lemma {:induction false} UnitVarianceFrom(s: seq<real>, z: seq<real>, v: real)
    requires |s| > 0 && v > 0.0 && v == Variance(s)
    requires Variance(z) == SquaredDeviations(z, 0.0) / |s| as real
    requires SquaredDeviations(z, 0.0) * v == SquaredDeviations(s, Mean(s))
    ensures Variance(z) == 1.0
  {
    VarianceIsMeanSquare(s);
    UnitFromParts(Variance(z), SquaredDeviations(z, 0.0), v, SquaredDeviations(s, Mean(s)), v, |s| as real);
  }

  lemma {:induction false} UnitVarianceAt(s: seq<real>, d: real, z: seq<real>, v: real)
    requires |s| > 0 && d != 0.0 && v > 0.0 && v == d * d && v == Variance(s)
    requires z == Standardised(s, Mean(s), d)
    ensures Variance(z) == 1.0
  {
    VarianceStandardised(s, d, z);
    SquaredDeviationsStandardised(s, Mean(s), d, v, z);
    UnitVarianceFrom(s, z, v);
  }

  /** Dividing by a scale whose square is the variance gives unit variance. */
  lemma {:induction false} StandardisedUnitVariance(s: seq<real>, d: real)
    requires d > 0.0 && d * d == Variance(s) && Variance(s) > 0.0
    ensures Variance(Standardised(s, Mean(s), d)) == 1.0
  {
    assert |s| > 0;
    UnitVarianceAt(s, d, Standardised(s, Mean(s), d), Variance(s));
  }
}
