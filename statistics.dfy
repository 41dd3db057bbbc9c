/** The two functions of Python's `statistics` module that the Sharpe ratio
    uses: `mean` and `stdev` (the sample standard deviation, with the
    N - 1 denominator). The sums are exact, as the module's own are; the
    square root is a parameter `sqrt` that is only known to give the
    non-negative root of every non-negative number. */
module Statistics {
  import opened Builtins

  function Sum(xs: seq<real>): real
  {
    if |xs| == 0 then 0.0 else xs[0] + Sum(xs[1..])
  }

  /** The arithmetic mean of a non-empty list. */
  function Average(xs: seq<real>): (m: real)
    requires |xs| > 0
    ensures m * |xs| as real == Sum(xs)
  {
    Sum(xs) / |xs| as real
  }

  /** `x` itself. Squares are written `d * Same(d)` so that the solver keeps
      the two factors apart instead of rewriting facts about `d * d` into
      facts about `d`. */
  function Same(x: real): real
  {
    x
  }

  function Square(d: real): real
  {
    d * Same(d)
  }

  /** The sum of the squared distances of the elements from `c`. */
  function SquaredDeviations(xs: seq<real>, c: real): (r: real)
    ensures 0.0 <= r
  {
    if |xs| == 0 then 0.0
    else
      SquareNonNegative(xs[0] - c);
      Square(xs[0] - c) + SquaredDeviations(xs[1..], c)
  }

  /** The sample variance: squared deviations from the mean over N - 1. */
  function SampleVariance(xs: seq<real>): (v: real)
    requires |xs| >= 2
    ensures 0.0 <= v
    ensures v * (|xs| - 1) as real == SquaredDeviations(xs, Average(xs))
  {
    SquaredDeviations(xs, Average(xs)) / (|xs| - 1) as real
  }

  predicate AllEqual(xs: seq<real>)
  {
    forall i, j :: 0 <= i < |xs| && 0 <= j < |xs| ==> xs[i] == xs[j]
  }

  /** `sqrt` gives the non-negative square root of every non-negative number. */
  ghost predicate IsSquareRoot(sqrt: real -> real)
  {
    forall v :: 0.0 <= v ==> 0.0 <= sqrt(v) && Square(sqrt(v)) == v
  }

  /** `statistics.mean(xs)`: raises StatisticsError on an empty list. */
  function Mean(xs: seq<real>): (r: Result<real>)
    ensures r.Ok? <==> |xs| > 0
    ensures r.Err? ==> r.error == StatisticsError
    ensures r.Ok? ==> r.value * |xs| as real == Sum(xs)
  {
    if |xs| == 0 then Err(StatisticsError) else Ok(Average(xs))
  }

  /** `statistics.stdev(xs)`: raises StatisticsError on fewer than two
      points; otherwise a non-negative number whose square is the sample
      variance, and which is zero exactly when all the points are equal. */
  function Stdev(xs: seq<real>, sqrt: real -> real): (r: Result<real>)
    requires IsSquareRoot(sqrt)
    ensures r.Ok? <==> |xs| >= 2
    ensures r.Err? ==> r.error == StatisticsError
    ensures r.Ok? ==> 0.0 <= r.value && Square(r.value) == SampleVariance(xs)
    ensures r.Ok? ==> (r.value == 0.0 <==> AllEqual(xs))
  {
    if |xs| < 2 then Err(StatisticsError)
    else
      var v := SampleVariance(xs);
      SampleVarianceZeroIffAllEqual(xs);
      RootZeroIffZero(sqrt, v);
      Ok(sqrt(v))
  }

  lemma MulPositive(a: real, b: real)
    requires 0.0 < a && 0.0 < b
    ensures 0.0 < a * b
  {
  }

  lemma MulNegative(a: real, b: real)
    requires a < 0.0 && b < 0.0
    ensures 0.0 < a * b
  {
  }

  lemma MulLess(a: real, b: real, c: real)
    requires a < b && 0.0 < c
    ensures c * a < c * b
  {
    MulPositive(c, b - a);
    assert c * (b - a) == c * b - c * a;
  }

  lemma SquarePositive(d: real)
    requires d != 0.0
    ensures 0.0 < Square(d)
  {
    if d > 0.0 {
      MulPositive(d, Same(d));
    } else {
      MulNegative(d, Same(d));
    }
  }

  lemma SquareNonNegative(d: real)
    ensures 0.0 <= Square(d)
  {
    if d != 0.0 {
      SquarePositive(d);
    }
  }

  lemma SquareLess(a: real, b: real)
    requires 0.0 <= a < b
    ensures Square(a) < Square(b)
  {
    if a > 0.0 {
      MulLess(a, b, a);
    }
    MulLess(a, b, b);
    assert a * b == b * a;
    assert Square(a) == a * a;
    assert Square(b) == b * b;
  }

  /** Two non-negative numbers with the same square are equal: the root is
      unique. */
  lemma SquareRootUnique(a: real, b: real)
    requires 0.0 <= a && 0.0 <= b
    requires Square(a) == Square(b)
    ensures a == b
  {
    if a < b {
      SquareLess(a, b);
    } else if b < a {
      SquareLess(b, a);
    }
  }

  /** The root of `v` is zero exactly when `v` is. */
  lemma RootZeroIffZero(sqrt: real -> real, v: real)
    requires IsSquareRoot(sqrt)
    requires 0.0 <= v
    ensures sqrt(v) == 0.0 <==> v == 0.0
  {
    var s := sqrt(v);
    assert 0.0 <= s && Square(s) == v;
    if s != 0.0 {
      SquarePositive(s);
    }
  }

  lemma {:induction false} SumConstant(xs: seq<real>, c: real)
    requires forall i :: 0 <= i < |xs| ==> xs[i] == c
    ensures Sum(xs) == |xs| as real * c
  {
    if |xs| > 0 {
      SumConstant(xs[1..], c);
    }
  }

  /** The squared deviations from `c` vanish exactly when every element is `c`. */
  lemma {:induction false} SquaredDeviationsZero(xs: seq<real>, c: real)
    ensures SquaredDeviations(xs, c) == 0.0 <==> forall i :: 0 <= i < |xs| ==> xs[i] == c
  {
    if |xs| > 0 {
      var d := xs[0] - c;
      SquaredDeviationsZero(xs[1..], c);
      if d != 0.0 {
        SquarePositive(d);
      }
      if SquaredDeviations(xs, c) == 0.0 {
        forall i | 0 <= i < |xs|
          ensures xs[i] == c
        {
          if i > 0 {
            assert xs[i] == xs[1..][i - 1];
          }
        }
      }
    }
  }

  /** The sample variance is zero exactly when all the points are equal. */
  lemma SampleVarianceZeroIffAllEqual(xs: seq<real>)
    requires |xs| >= 2
    ensures SampleVariance(xs) == 0.0 <==> AllEqual(xs)
  {
    var m := Average(xs);
    SquaredDeviationsZero(xs, m);
    if AllEqual(xs) {
      SumConstant(xs, xs[0]);
      assert m == xs[0];
    }
  }

  /** Points that are not all equal have a positive standard deviation. */
  lemma RootOfVariancePositive(xs: seq<real>, sqrt: real -> real)
    requires IsSquareRoot(sqrt)
    requires |xs| >= 2 && !AllEqual(xs)
    ensures 0.0 < sqrt(SampleVariance(xs))
  {
    SampleVarianceZeroIffAllEqual(xs);
    RootZeroIffZero(sqrt, SampleVariance(xs));
  }

  function Scale(xs: seq<real>, k: real): (ys: seq<real>)
    ensures |ys| == |xs|
    ensures forall i :: 0 <= i < |xs| ==> ys[i] == k * xs[i]
  {
    seq(|xs|, i requires 0 <= i < |xs| => k * xs[i])
  }

  lemma ScaleTail(xs: seq<real>, k: real)
    requires |xs| > 0
    ensures Scale(xs, k)[1..] == Scale(xs[1..], k)
  {
    var a, b := Scale(xs, k)[1..], Scale(xs[1..], k);
    forall i | 0 <= i < |a|
      ensures a[i] == b[i]
    {
      assert a[i] == Scale(xs, k)[i + 1];
    }
  }

  lemma {:induction false} SumScale(xs: seq<real>, k: real)
    ensures Sum(Scale(xs, k)) == k * Sum(xs)
  {
    if |xs| > 0 {
      ScaleTail(xs, k);
      SumScale(xs[1..], k);
    }
  }

  lemma SquareScale(k: real, d: real)
    ensures Square(k * d) == Square(k) * Square(d)
  {
  }

  lemma {:induction false} SquaredDeviationsScale(xs: seq<real>, c: real, k: real, kc: real)
    requires kc == k * c
    ensures SquaredDeviations(Scale(xs, k), kc) == Square(k) * SquaredDeviations(xs, c)
  {
    if |xs| > 0 {
      var d := xs[0] - c;
      assert Scale(xs, k)[0] - kc == k * d;
      SquareScale(k, d);
      ScaleTail(xs, k);
      SquaredDeviationsScale(xs[1..], c, k, kc);
    }
  }

  /** Measuring the points in another unit scales their mean by the factor. */
  lemma AverageScale(xs: seq<real>, k: real)
    requires |xs| > 0
    ensures Average(Scale(xs, k)) == k * Average(xs)
  {
    var n, m, a := |xs| as real, Average(xs), Average(Scale(xs, k));
    SumScale(xs, k);
    assert a * n == k * (m * n);
    assert k * (m * n) == (k * m) * n;
    MulCancel(a, k * m, n);
  }

  /** ... their squared deviations from the mean by its square ... */
  lemma SquaredDeviationsFromMeanScale(xs: seq<real>, k: real)
    requires |xs| > 0
    ensures SquaredDeviations(Scale(xs, k), Average(Scale(xs, k)))
         == Square(k) * SquaredDeviations(xs, Average(xs))
  {
    var m, ys := Average(xs), Scale(xs, k);
    var a := Average(ys);
    AverageScale(xs, k);
    SquaredDeviationsScale(xs, m, k, a);
  }

  /** ... and so their sample variance by its square. */
  lemma SampleVarianceScale(xs: seq<real>, k: real)
    requires |xs| >= 2
    ensures SampleVariance(Scale(xs, k)) == Square(k) * SampleVariance(xs)
  {
    var ys := Scale(xs, k);
    SquaredDeviationsFromMeanScale(xs, k);
    DivideScaled(SampleVariance(ys), Square(k), SampleVariance(xs),
      (|xs| - 1) as real, SquaredDeviations(xs, Average(xs)));
  }

  /** If `w * n` is `c * d` and `v * n` is `d`, then `w` is `c * v`. */
  lemma DivideScaled(w: real, c: real, v: real, n: real, d: real)
    requires n != 0.0
    requires w * n == c * d && v * n == d
    ensures w == c * v
  {
    assert c * (v * n) == (c * v) * n;
    MulCancel(w, c * v, n);
  }

  lemma MulCancel(a: real, b: real, n: real)
    requires n != 0.0
    requires a * n == b * n
    ensures a == b
  {
    assert (a - b) * n == 0.0;
  }

  /** A positive factor comes out of the square root unchanged. */
  lemma RootScale(sqrt: real -> real, k: real, v: real)
    requires IsSquareRoot(sqrt)
    requires 0.0 < k && 0.0 <= v
    ensures sqrt(Square(k) * v) == k * sqrt(v)
  {
    var s := sqrt(v);
    SquareNonNegative(k);
    var w := Square(k) * v;
    assert 0.0 <= w by {
      if 0.0 < v && 0.0 < Square(k) {
        MulPositive(Square(k), v);
      }
    }
    SquareScale(k, s);
    assert 0.0 <= k * s by {
      if 0.0 < s {
        MulPositive(k, s);
      }
    }
    SquareRootUnique(sqrt(w), k * s);
  }
}
