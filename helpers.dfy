/** The metric helpers of the API (api/helpers.py): `maxDrawDown` and
    `sharpeRatio`. Each reads one list out of the dictionary `value` it is
    given, computes a number rounded to two decimals, and turns any
    exception raised on the way into 0 with a bare `except`. */
module Helpers {
  import opened Builtins
  import opened Rounding
  import opened Statistics

  /** The dictionary `value` the helpers receive, as far as they use it:
      entries that hold lists of numbers. */
  type Document = map<string, seq<real>>

  const DrawdownsKey: string := "Drawdowns"
  const ReturnsKey: string := "Avg_ROV"

  /** The bare `except:` of both helpers: any exception becomes 0. */
  function OrZero(r: Result<real>): (x: real)
    ensures r.Err? ==> x == 0.0
    ensures r.Ok? ==> x == r.value
  {
    match r
    case Ok(v) => v
    case Err(_) => 0.0
  }

  // ---------------------------------------------------------------------
  // maxDrawDown
  // ---------------------------------------------------------------------

  /** `max_index`: where the largest element first occurs. Everything before
      it is strictly smaller, nothing anywhere is larger. */
  function PeakIndex(xs: seq<real>): (p: nat)
    requires |xs| > 0
    ensures p < |xs|
    ensures forall j :: 0 <= j < |xs| ==> xs[j] <= xs[p]
    ensures forall j :: 0 <= j < p ==> xs[j] < xs[p]
  {
    IndexOf(xs, Maximum(xs)).value
  }

  /** The `try` body of `maxDrawDown` once `value["Drawdowns"]` has been
      read: the largest element, the first index holding it, the smallest
      element from that index on, and their difference rounded. It fails
      (with `max`'s ValueError) exactly on an empty list, and otherwise is
      never negative. */
  function DrawDownOf(drawdowns: seq<real>): (r: Result<real>)
    ensures r.Ok? <==> |drawdowns| > 0
    ensures r.Err? ==> r.error == ValueError
    ensures r.Ok? ==> 0.0 <= r.value
  {
    match Max(drawdowns)
    case Err(e) => Err(e)
    case Ok(maxValue) =>
      // `index` cannot fail here: the maximum is an element of the list
      var maxIndex := IndexOf(drawdowns, maxValue).value;
      // nor can `min`: the slice holds at least the maximum itself
      var minValue := Min(drawdowns[maxIndex..]).value;
      assert minValue <= maxValue by {
        assert maxValue == drawdowns[maxIndex..][0];
      }
      Round2Sign(maxValue - minValue);
      Ok(Round2(maxValue - minValue))
  }

  /** The unrounded drawdown of a non-empty list: its first peak minus
      the smallest element from there on. */
  function Decline(xs: seq<real>): real
    requires |xs| > 0
  {
    var p := PeakIndex(xs);
    xs[p] - Minimum(xs[p..])
  }

  /** A non-empty list's drawdown is its decline, rounded. */
  lemma DrawDownUnfold(xs: seq<real>)
    requires |xs| > 0
    ensures DrawDownOf(xs) == Ok(Round2(Decline(xs)))
  {
  }

  /** The whole `try` body of `maxDrawDown`, exceptions included. */
  function TryMaxDrawDown(value: Document): (r: Result<real>)
    ensures r.Ok? <==> DrawdownsKey in value && |value[DrawdownsKey]| > 0
    ensures DrawdownsKey !in value ==> r == Err(KeyError(DrawdownsKey))
    ensures DrawdownsKey in value ==> r == DrawDownOf(value[DrawdownsKey])
  {
    var drawdowns :- Subscript(value, DrawdownsKey);
    DrawDownOf(drawdowns)
  }

  /** `maxDrawDown(value)`: never negative, and 0 when the key is missing
      or the list is empty. */
  function MaxDrawDown(value: Document): (r: real)
    ensures 0.0 <= r
    ensures DrawdownsKey !in value ==> r == 0.0
    ensures DrawdownsKey in value && |value[DrawdownsKey]| == 0 ==> r == 0.0
    ensures DrawdownsKey in value && |value[DrawdownsKey]| > 0 ==>
      r == Round2(Decline(value[DrawdownsKey]))
  {
    if DrawdownsKey in value && |value[DrawdownsKey]| > 0 then
      DrawDownUnfold(value[DrawdownsKey]);
      OrZero(TryMaxDrawDown(value))
    else
      OrZero(TryMaxDrawDown(value))
  }

  /** The decline from the first peak is the largest decline from it to
      any later (or the same) element: one of them reaches it, none
      exceeds it. */
  lemma DeclineIsLargestFromFirstPeak(xs: seq<real>)
    requires |xs| > 0
    ensures exists j :: PeakIndex(xs) <= j < |xs| && Decline(xs) == xs[PeakIndex(xs)] - xs[j]
    ensures forall j :: PeakIndex(xs) <= j < |xs| ==> xs[PeakIndex(xs)] - xs[j] <= Decline(xs)
  {
    var p := PeakIndex(xs);
    SuffixMinimumReached(xs, p);
    SuffixMinimumBounds(xs, p);
  }

  /** Rounding keeps both halves: the drawdown is the rounded decline to
      some element after the first peak ... */
  lemma DrawDownReachedAfterFirstPeak(xs: seq<real>)
    requires |xs| > 0
    ensures DrawDownOf(xs).Ok?
    ensures exists j :: PeakIndex(xs) <= j < |xs| && DrawDownOf(xs).value == Round2(xs[PeakIndex(xs)] - xs[j])
  {
    DrawDownUnfold(xs);
    DeclineIsLargestFromFirstPeak(xs);
    RoundedDeclines(xs, PeakIndex(xs), Decline(xs));
  }

  /** ... and no rounded decline from the first peak exceeds it. */
  lemma DrawDownBoundsDeclinesFromFirstPeak(xs: seq<real>)
    requires |xs| > 0
    ensures DrawDownOf(xs).Ok?
    ensures forall j :: PeakIndex(xs) <= j < |xs| ==> Round2(xs[PeakIndex(xs)] - xs[j]) <= DrawDownOf(xs).value
  {
    DrawDownUnfold(xs);
    DeclineIsLargestFromFirstPeak(xs);
    RoundedDeclines(xs, PeakIndex(xs), Decline(xs));
  }

  /** Rounding keeps a largest decline from `xs[p]` the largest one. */
  lemma RoundedDeclines(xs: seq<real>, p: nat, d: real)
    requires p < |xs|
    requires exists j :: p <= j < |xs| && d == xs[p] - xs[j]
    requires forall j :: p <= j < |xs| ==> xs[p] - xs[j] <= d
    ensures exists j :: p <= j < |xs| && Round2(d) == Round2(xs[p] - xs[j])
    ensures forall j :: p <= j < |xs| ==> Round2(xs[p] - xs[j]) <= Round2(d)
  {
    var j :| p <= j < |xs| && d == xs[p] - xs[j];
    assert Round2(d) == Round2(xs[p] - xs[j]);
    forall k | p <= k < |xs|
      ensures Round2(xs[p] - xs[k]) <= Round2(d)
    {
      Round2Monotone(xs[p] - xs[k], d);
    }
  }

  /** The decline lies between 0 and the range of the whole list ... */
  lemma DeclineWithinRange(xs: seq<real>)
    requires |xs| > 0
    ensures 0.0 <= Decline(xs) <= Maximum(xs) - Minimum(xs)
  {
    var p := PeakIndex(xs);
    MinimumOfSuffix(xs, p);
    SuffixMinimumBounds(xs, p);
  }

  /** ... so the drawdown never exceeds the rounded range. */
  lemma DrawDownWithinRange(xs: seq<real>)
    requires |xs| > 0
    ensures DrawDownOf(xs).Ok?
    ensures DrawDownOf(xs).value <= Round2(Maximum(xs) - Minimum(xs))
  {
    DrawDownUnfold(xs);
    DeclineWithinRange(xs);
    Round2Monotone(Decline(xs), Maximum(xs) - Minimum(xs));
  }

  /** Putting elements strictly below the maximum in front of a list moves
      its first peak by their number. */
  lemma PeakIndexConcat(pre: seq<real>, ys: seq<real>)
    requires |ys| > 0
    requires forall i :: 0 <= i < |pre| ==> pre[i] < Maximum(ys)
    ensures PeakIndex(pre + ys) == |pre| + PeakIndex(ys)
  {
    MaximumOfConcat(pre, ys);
    IndexOfConcat(pre, ys, Maximum(ys));
  }

  lemma DeclineIgnoresPrefix(pre: seq<real>, ys: seq<real>)
    requires |ys| > 0
    requires forall i :: 0 <= i < |pre| ==> pre[i] < Maximum(ys)
    ensures Decline(pre + ys) == Decline(ys)
  {
    var zs := pre + ys;
    var p, q := PeakIndex(ys), PeakIndex(zs);
    assert q == |pre| + p by {
      PeakIndexConcat(pre, ys);
    }
    ConcatSuffix(pre, ys, p);
    assert Minimum(zs[q..]) == Minimum(ys[p..]);
  }

  lemma ConcatSuffix(pre: seq<real>, ys: seq<real>, p: nat)
    requires p < |ys|
    ensures (pre + ys)[|pre| + p] == ys[p]
    ensures (pre + ys)[|pre| + p..] == ys[p..]
  {
  }

  /** Elements in front of the first peak never affect the drawdown: any
      prefix of values strictly below the peak can be added or removed. */
  lemma DrawDownIgnoresPrefix(pre: seq<real>, ys: seq<real>)
    requires |ys| > 0
    requires forall i :: 0 <= i < |pre| ==> pre[i] < Maximum(ys)
    ensures DrawDownOf(pre + ys) == DrawDownOf(ys)
  {
    DeclineIgnoresPrefix(pre, ys);
    DrawDownUnfold(pre + ys);
    DrawDownUnfold(ys);
  }

  /** Split at the first peak, a list is a prefix strictly below the peak
      followed by a tail whose maximum is the peak. */
  lemma SplitAtPeak(xs: seq<real>)
    requires |xs| > 0
    ensures xs[..PeakIndex(xs)] + xs[PeakIndex(xs)..] == xs
    ensures Maximum(xs[PeakIndex(xs)..]) == xs[PeakIndex(xs)]
    ensures forall i :: 0 <= i < PeakIndex(xs) ==> xs[..PeakIndex(xs)][i] < Maximum(xs[PeakIndex(xs)..])
  {
    var p := PeakIndex(xs);
    var ys := xs[p..];
    MaximumIs(ys, xs[p]) by {
      assert ys[0] == xs[p];
      forall i | 0 <= i < |ys|
        ensures ys[i] <= xs[p]
      {
        assert ys[i] == xs[p + i];
      }
    }
  }

  /** In particular the drawdown of a list is that of its tail from the
      first peak on. */
  lemma DrawDownFromPeak(xs: seq<real>)
    requires |xs| > 0
    ensures DrawDownOf(xs) == DrawDownOf(xs[PeakIndex(xs)..])
  {
    var p := PeakIndex(xs);
    SplitAtPeak(xs);
    DrawDownIgnoresPrefix(xs[..p], xs[p..]);
  }

  /** A list whose maximum first occurs at its last position, a single
      element among them, has no drawdown. */
  lemma DrawDownZeroWhenPeakIsLast(xs: seq<real>)
    requires |xs| > 0
    requires PeakIndex(xs) == |xs| - 1
    ensures DrawDownOf(xs) == Ok(0.0)
  {
    var p := PeakIndex(xs);
    DrawDownUnfold(xs);
    assert xs[p..] == [xs[p]];
    Round2Hundredths(0);
  }

  lemma DrawDownSingleton(x: real)
    ensures DrawDownOf([x]) == Ok(0.0)
  {
    DrawDownZeroWhenPeakIsLast([x]);
  }

  predicate NonDecreasing(xs: seq<real>)
  {
    forall i, j :: 0 <= i <= j < |xs| ==> xs[i] <= xs[j]
  }

  /** A list that never goes down has no drawdown. */
  lemma DrawDownZeroWhenNonDecreasing(xs: seq<real>)
    requires |xs| > 0 && NonDecreasing(xs)
    ensures DrawDownOf(xs) == Ok(0.0)
  {
    var p := PeakIndex(xs);
    var tail := xs[p..];
    forall j | 0 <= j < |tail|
      ensures tail[j] == xs[p]
    {
      assert tail[j] == xs[p + j];
    }
    MinimumIs(tail, xs[p]);
    DrawDownUnfold(xs);
    Round2Hundredths(0);
  }

  /** `xs` with `c` added to every element. */
  function Shift(xs: seq<real>, c: real): (ys: seq<real>)
    ensures |ys| == |xs|
    ensures forall i :: 0 <= i < |xs| ==> ys[i] == xs[i] + c
  {
    seq(|xs|, i requires 0 <= i < |xs| => xs[i] + c)
  }

  lemma ShiftSuffix(xs: seq<real>, c: real, p: nat)
    requires p <= |xs|
    ensures Shift(xs, c)[p..] == Shift(xs[p..], c)
  {
    var a, b := Shift(xs, c)[p..], Shift(xs[p..], c);
    forall i | 0 <= i < |a|
      ensures a[i] == b[i]
    {
      assert a[i] == Shift(xs, c)[p + i];
    }
  }

  lemma MaximumShift(xs: seq<real>, c: real)
    requires |xs| > 0
    ensures Maximum(Shift(xs, c)) == Maximum(xs) + c
  {
    var ys, m := Shift(xs, c), Maximum(xs);
    var k :| 0 <= k < |xs| && xs[k] == m;
    assert ys[k] == m + c;
    MaximumIs(ys, m + c);
  }

  lemma MinimumShift(xs: seq<real>, c: real)
    requires |xs| > 0
    ensures Minimum(Shift(xs, c)) == Minimum(xs) + c
  {
    var ys, m := Shift(xs, c), Minimum(xs);
    var k :| 0 <= k < |xs| && xs[k] == m;
    assert ys[k] == m + c;
    MinimumIs(ys, m + c);
  }

  lemma IndexOfShift(xs: seq<real>, c: real, x: real)
    requires x in xs
    ensures IndexOf(Shift(xs, c), x + c) == IndexOf(xs, x)
  {
    var ys, k := Shift(xs, c), IndexOf(xs, x).value;
    forall j | 0 <= j < k
      ensures ys[j] != x + c
    {
    }
    IndexOfIs(ys, x + c, k);
  }

  lemma DeclineShiftInvariant(xs: seq<real>, c: real)
    requires |xs| > 0
    ensures Decline(Shift(xs, c)) == Decline(xs)
  {
    var ys, p := Shift(xs, c), PeakIndex(xs);
    MaximumShift(xs, c);
    IndexOfShift(xs, c, Maximum(xs));
    assert PeakIndex(ys) == p;
    ShiftSuffix(xs, c, p);
    MinimumShift(xs[p..], c);
  }

  /** Adding the same amount to every element leaves the drawdown as it
      is: only differences between elements matter. */
  lemma DrawDownShiftInvariant(xs: seq<real>, c: real)
    ensures DrawDownOf(Shift(xs, c)) == DrawDownOf(xs)
  {
    if |xs| > 0 {
      DeclineShiftInvariant(xs, c);
      DrawDownUnfold(xs);
      DrawDownUnfold(Shift(xs, c));
    }
  }

  /** With the maximum occurring twice, the first one is the peak:
      [3, 1, 3, 2] has drawdown 2 (from index 0 down to 1), not 1. */
  lemma DrawDownTiesUseFirstPeak()
    ensures DrawDownOf([3.0, 1.0, 3.0, 2.0]) == Ok(2.0)
  {
    var xs := [3.0, 1.0, 3.0, 2.0];
    MaximumIs(xs, 3.0);
    IndexOfIs(xs, 3.0, 0);
    MinimumIs(xs, 1.0);
    Round2Hundredths(200);
  }

  /** [10, 2, 12, 11]: the fall from 10 to 2 happens before the first
      peak 12 and does not count; the drawdown is 1. */
  lemma DrawDownOnlyAfterGlobalPeak()
    ensures DrawDownOf([10.0, 2.0, 12.0, 11.0]) == Ok(1.0)
  {
    var xs := [10.0, 2.0, 12.0, 11.0];
    MaximumIs(xs, 12.0);
    IndexOfIs(xs, 12.0, 2);
    assert xs[2..] == [12.0, 11.0];
    MinimumIs([12.0, 11.0], 11.0);
    Round2Hundredths(100);
  }

  /** [1, 5, 2, 8, 3]: the peak 8 is at index 3, the lowest point after it
      is 3, so the drawdown is 5 and not the global range 7. */
  lemma DrawDownExample()
    ensures DrawDownOf([1.0, 5.0, 2.0, 8.0, 3.0]) == Ok(5.0)
  {
    var xs := [1.0, 5.0, 2.0, 8.0, 3.0];
    MaximumIs(xs, 8.0);
    IndexOfIs(xs, 8.0, 3);
    assert xs[3..] == [8.0, 3.0];
    MinimumIs([8.0, 3.0], 3.0);
    Round2Hundredths(500);
  }

  // ---------------------------------------------------------------------
  // sharpeRatio
  // ---------------------------------------------------------------------

  /** The `try` body of `sharpeRatio` once `value["Avg_ROV"]` has been read:
      the sample standard deviation, the mean, their quotient rounded. It
      succeeds exactly when there are two or more samples that are not all
      equal; with fewer `stdev` raises, with all equal the division does. */
  function SharpeRatioOf(samples: seq<real>, sqrt: real -> real): (r: Result<real>)
    requires IsSquareRoot(sqrt)
    ensures r.Ok? <==> |samples| >= 2 && !AllEqual(samples)
    ensures |samples| < 2 ==> r == Err(StatisticsError)
    ensures |samples| >= 2 && AllEqual(samples) ==> r == Err(ZeroDivisionError)
  {
    match Stdev(samples, sqrt)
    case Err(e) => Err(e)
    case Ok(standardDev) =>
      // `mean` cannot fail here: `stdev` has already seen two points
      var avgTradeReturns := Mean(samples).value;
      match Divide(avgTradeReturns, standardDev)
      case Err(e) => Err(e)
      case Ok(ratio) => Ok(Round2(ratio))
  }

  /** The whole `try` body of `sharpeRatio`, exceptions included. */
  function TrySharpeRatio(value: Document, sqrt: real -> real): (r: Result<real>)
    requires IsSquareRoot(sqrt)
    ensures ReturnsKey !in value ==> r == Err(KeyError(ReturnsKey))
    ensures ReturnsKey in value ==> r == SharpeRatioOf(value[ReturnsKey], sqrt)
  {
    var samples :- Subscript(value, ReturnsKey);
    SharpeRatioOf(samples, sqrt)
  }

  /** `sharpeRatio(value)`: 0 when the key is missing, when there are
      fewer than two samples, and when all samples are equal. */
  function SharpeRatio(value: Document, sqrt: real -> real): (r: real)
    requires IsSquareRoot(sqrt)
    ensures ReturnsKey !in value ==> r == 0.0
    ensures ReturnsKey in value && |value[ReturnsKey]| < 2 ==> r == 0.0
    ensures ReturnsKey in value && AllEqual(value[ReturnsKey]) ==> r == 0.0
    ensures ReturnsKey in value && |value[ReturnsKey]| >= 2 && !AllEqual(value[ReturnsKey]) ==>
      0.0 < sqrt(SampleVariance(value[ReturnsKey])) &&
      r == Round2(Average(value[ReturnsKey]) / sqrt(SampleVariance(value[ReturnsKey])))
  {
    if ReturnsKey in value && |value[ReturnsKey]| >= 2 && !AllEqual(value[ReturnsKey]) then
      SharpeRatioIsMeanOverStdev(value[ReturnsKey], sqrt);
      OrZero(TrySharpeRatio(value, sqrt))
    else
      OrZero(TrySharpeRatio(value, sqrt))
  }

  /** Otherwise the result is the mean over the standard deviation, which
      is then positive and the root of the sample variance. */
  lemma SharpeRatioIsMeanOverStdev(xs: seq<real>, sqrt: real -> real)
    requires IsSquareRoot(sqrt)
    requires |xs| >= 2 && !AllEqual(xs)
    ensures 0.0 < sqrt(SampleVariance(xs))
    ensures Square(sqrt(SampleVariance(xs))) == SampleVariance(xs)
    ensures SharpeRatioOf(xs, sqrt) == Ok(Round2(Average(xs) / sqrt(SampleVariance(xs))))
  {
    var sd := Stdev(xs, sqrt).value;
    assert sd == sqrt(SampleVariance(xs));
    assert Divide(Average(xs), sd) == Ok(Average(xs) / sd);
  }

  /** The ratio has the sign of the mean return (or is 0). */
  lemma SharpeRatioSign(xs: seq<real>, sqrt: real -> real)
    requires IsSquareRoot(sqrt)
    requires |xs| > 0
    ensures 0.0 <= Average(xs) ==> 0.0 <= OrZero(SharpeRatioOf(xs, sqrt))
    ensures Average(xs) <= 0.0 ==> OrZero(SharpeRatioOf(xs, sqrt)) <= 0.0
  {
    if |xs| >= 2 && !AllEqual(xs) {
      SharpeRatioIsMeanOverStdev(xs, sqrt);
      var m, sd := Average(xs), sqrt(SampleVariance(xs));
      QuotientSign(m, sd);
      Round2Sign(m / sd);
    }
  }

  lemma QuotientSign(a: real, b: real)
    requires 0.0 < b
    ensures 0.0 <= a ==> 0.0 <= a / b
    ensures a <= 0.0 ==> a / b <= 0.0
  {
  }

  /** Expressing every return in another positive unit (percent instead of
      a fraction, say) does not change the ratio, degenerate cases
      included. */
  lemma SharpeRatioScaleInvariant(xs: seq<real>, k: real, sqrt: real -> real)
    requires IsSquareRoot(sqrt)
    requires 0.0 < k
    ensures SharpeRatioOf(Scale(xs, k), sqrt) == SharpeRatioOf(xs, sqrt)
  {
    AllEqualScale(xs, k);
    if |xs| >= 2 && !AllEqual(xs) {
      MeanOverStdevScale(xs, k, sqrt);
      SharpeRatioIsMeanOverStdev(xs, sqrt);
      SharpeRatioIsMeanOverStdev(Scale(xs, k), sqrt);
    }
  }

  /** Away from the degenerate cases, the unrounded quotient is unchanged. */
  lemma MeanOverStdevScale(xs: seq<real>, k: real, sqrt: real -> real)
    requires IsSquareRoot(sqrt)
    requires 0.0 < k && |xs| >= 2 && !AllEqual(xs)
    ensures 0.0 < sqrt(SampleVariance(xs)) && 0.0 < sqrt(SampleVariance(Scale(xs, k)))
    ensures Average(Scale(xs, k)) / sqrt(SampleVariance(Scale(xs, k)))
         == Average(xs) / sqrt(SampleVariance(xs))
  {
    var ys := Scale(xs, k);
    AllEqualScale(xs, k);
    RootOfVariancePositive(xs, sqrt);
    RootOfVariancePositive(ys, sqrt);
    MeanAndStdevScale(xs, k, sqrt);
    QuotientScale(Average(ys), sqrt(SampleVariance(ys)), Average(xs), sqrt(SampleVariance(xs)), k);
  }

  /** Scaling by a non-zero factor neither creates nor removes a
      difference between two samples. */
  lemma AllEqualScale(xs: seq<real>, k: real)
    requires k != 0.0
    ensures AllEqual(Scale(xs, k)) <==> AllEqual(xs)
  {
    var ys := Scale(xs, k);
    if AllEqual(ys) {
      forall i, j | 0 <= i < |xs| && 0 <= j < |xs|
        ensures xs[i] == xs[j]
      {
        assert k * xs[i] == ys[i] == ys[j] == k * xs[j];
        MulCancel(xs[i], xs[j], k);
      }
    }
  }

  /** A positive factor scales the mean and the standard deviation alike. */
  lemma MeanAndStdevScale(xs: seq<real>, k: real, sqrt: real -> real)
    requires IsSquareRoot(sqrt)
    requires 0.0 < k && |xs| >= 2
    ensures Average(Scale(xs, k)) == k * Average(xs)
    ensures sqrt(SampleVariance(Scale(xs, k))) == k * sqrt(SampleVariance(xs))
  {
    var v, w := SampleVariance(xs), SampleVariance(Scale(xs, k));
    AverageScale(xs, k);
    SampleVarianceScale(xs, k);
    assert w == Square(k) * v;
    RootScale(sqrt, k, v);
    assert sqrt(Square(k) * v) == k * sqrt(v);
  }

  /** Numerator and denominator scaled by the same factor: same quotient. */
  lemma QuotientScale(a: real, b: real, m: real, sd: real, k: real)
    requires sd != 0.0 && k != 0.0
    requires a == k * m && b == k * sd
    ensures b != 0.0 && a / b == m / sd
  {
    var q, q' := m / sd, a / b;
    assert q * sd == m;
    assert q' * b == a;
    assert q * b == k * (q * sd);
    MulCancel(q', q, b);
  }

  /** [1, 2, 3]: mean 2, sample standard deviation 1, ratio 2. */
  lemma SharpeRatioExample(sqrt: real -> real)
    requires IsSquareRoot(sqrt)
    ensures SharpeRatioOf([1.0, 2.0, 3.0], sqrt) == Ok(2.0)
  {
    var xs := [1.0, 2.0, 3.0];
    assert !AllEqual(xs) by {
      assert xs[0] != xs[1];
    }
    SharpeRatioIsMeanOverStdev(xs, sqrt);
    assert Average(xs) == 2.0;
    assert SquaredDeviations(xs, 2.0) == 2.0;
    assert SampleVariance(xs) == 1.0;
    SquareRootUnique(sqrt(1.0), 1.0);
    Round2Hundredths(200);
  }
}
