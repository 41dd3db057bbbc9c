# Trading dashboard metric helpers, in Dafny

This project models the two metric helpers of the trading-account API,
`maxDrawDown` and `sharpeRatio` in `api/helpers.py`, and proves what they
compute.

- **`maxDrawDown(value)`** reads the list `value["Drawdowns"]`. It takes its
  largest element and finds the first index holding it with `list.index`.
  It then takes the smallest element of the slice from that index to the
  end, and returns the difference rounded to two decimals.
- **`sharpeRatio(value)`** reads `value["Avg_ROV"]`. It returns the mean over
  the sample standard deviation, rounded to two decimals.
- In both, a bare `except` turns any exception into `0`.

The model follows the Python code step by step, exceptions included:

- `Builtins` (`builtins.dfy`) holds the Python pieces the helpers use:
  - dictionary subscripting, which raises `KeyError`;
  - `max` and `min`, which raise `ValueError` on an empty list;
  - `list.index`, which returns the first match or raises `ValueError`;
  - float division, which raises `ZeroDivisionError`.
  
  Each of these returns a `Result` that is either a value or the exception
  raised.
- `Rounding` (`rounding.dfy`) is `round(x, 2)`: the nearest hundredth, with
  an exact tie going to the even neighbour.
- `Statistics` (`statistics.dfy`) is `statistics.mean` and `statistics.stdev`.
  `stdev` uses the sample variance with the N − 1 denominator, and raises
  `StatisticsError` when there are fewer than two points.
- `Helpers` (`helpers.dfy`) holds the two helpers:
  - `DrawDownOf` and `SharpeRatioOf` are the `try` bodies once the list has
    been read;
  - `TryMaxDrawDown` and `TrySharpeRatio` include the dictionary read;
  - `MaxDrawDown` and `SharpeRatio` add the `except`.

The drawdown counts only declines that happen after the first occurrence
of the global maximum. A fall that comes before that peak is ignored, even
a larger one (`DrawDownOnlyAfterGlobalPeak`). The model keeps this
behaviour of the code.

## Model

| member | source | states |
|---|---|---|
| Builtins.Subscript | api/helpers.py:9 | `value[key]` is the entry when the key is present, and raises `KeyError(key)` exactly when it is absent |
| Builtins.Maximum | api/helpers.py:9 | the result is an element of the list and no element exceeds it |
| Builtins.Max | api/helpers.py:9 | `max` raises `ValueError` exactly on an empty list, otherwise gives the largest element |
| Builtins.IndexOf | api/helpers.py:12 | `index` succeeds exactly when the value occurs; the position holds the value and no earlier position does; otherwise `ValueError` |
| Builtins.Minimum | api/helpers.py:15 | the result is an element of the list and no element is below it |
| Builtins.Min | api/helpers.py:15 | `min` raises `ValueError` exactly on an empty list, otherwise gives the smallest element |
| Builtins.Divide | api/helpers.py:33 | division raises `ZeroDivisionError` exactly when the divisor is 0, otherwise the quotient times the divisor is the dividend |
| Builtins.MinimumOfSuffix | api/helpers.py:15 | the minimum of a suffix is never below the minimum of the whole list |
| Rounding.RoundHalfEven | api/helpers.py:17-18 | the tie rule of `round`: the nearest integer, and on an exact half the even one; its properties are stated by `RoundHalfEvenNearest` and `RoundHalfEvenMonotone` |
| Rounding.Round2 | api/helpers.py:33 | `round(x, 2)`: the half-even rounding of `100 * x`, divided by 100; its properties are stated by the `Round2…` lemmas below |
| Rounding.RoundHalfEvenMonotone | api/helpers.py:17-18 | a larger argument never rounds to a smaller integer |
| Rounding.RoundHalfEvenNearest | api/helpers.py:17-18 | the rounded integer is within one half of its argument, an exact tie goes to the even integer, and the sign is kept |
| Rounding.Round2Nearest | api/helpers.py:17-18 | `round(x, 2)` is within half a hundredth of `x` |
| Rounding.Round2IsHundredths | api/helpers.py:17-18 | `round(x, 2)` is a whole number of hundredths |
| Rounding.Round2Sign | api/helpers.py:17-18 | rounding keeps a non-negative number non-negative and a non-positive one non-positive |
| Rounding.Round2Monotone | api/helpers.py:17-18 | rounding never reverses the order of two numbers |
| Rounding.Round2Hundredths | api/helpers.py:17-18 | a number that already has two decimals rounds to itself |
| Statistics.Average | api/helpers.py:31 | the mean times the number of points is their sum |
| Statistics.Mean | api/helpers.py:31 | `mean` raises `StatisticsError` exactly on an empty list, otherwise gives the average |
| Statistics.SampleVariance | api/helpers.py:29 | the variance is non-negative, and times N − 1 it is the sum of squared deviations from the mean |
| Statistics.Stdev | api/helpers.py:29 | `stdev` raises `StatisticsError` exactly on fewer than two points; otherwise it gives the non-negative root of the sample variance, which is 0 exactly when all points are equal |
| Statistics.SquaredDeviationsZero | api/helpers.py:29 | the squared deviations from `c` vanish exactly when every point equals `c` |
| Statistics.SampleVarianceZeroIffAllEqual | api/helpers.py:29 | the sample variance is 0 exactly when all points are equal |
| Statistics.RootOfVariancePositive | api/helpers.py:29 | points that are not all equal have a positive standard deviation |
| Statistics.SquareRootUnique | api/helpers.py:29 | two non-negative numbers with the same square are equal, so the standard deviation is determined by the variance |
| Statistics.AverageScale | api/helpers.py:31 | multiplying every point by `k` multiplies the mean by `k` |
| Statistics.SampleVarianceScale | api/helpers.py:29 | multiplying every point by `k` multiplies the sample variance by `k²` |
| Statistics.RootScale | api/helpers.py:29 | a positive factor comes out of the square root unchanged |
| Helpers.OrZero | api/helpers.py:20-22 | the bare `except`: any exception gives 0, a value passes through |
| Helpers.PeakIndex | api/helpers.py:9-12 | `max_index` is a position no element exceeds, and every element before it is strictly smaller: the first occurrence of the maximum |
| Helpers.DrawDownOf | api/helpers.py:9-18 | the `try` body raises exactly on an empty list, with `ValueError`, and otherwise gives a non-negative result |
| Helpers.Decline | api/helpers.py:9-18 | `max_value - min_value` before rounding: the first peak minus the smallest element from there on; `DeclineIsLargestFromFirstPeak` characterises it |
| Helpers.DrawDownUnfold | api/helpers.py:9-18 | on a non-empty list the `try` body succeeds with the decline from the first peak, rounded to two decimals |
| Helpers.TryMaxDrawDown | api/helpers.py:6-18 | succeeds exactly when the key is present and its list is non-empty; raises `KeyError("Drawdowns")` when the key is missing |
| Helpers.MaxDrawDown | api/helpers.py:4-22 | never negative; 0 when the key is missing or the list is empty; otherwise the rounded decline from the first peak to the lowest later point |
| Helpers.DeclineIsLargestFromFirstPeak | api/helpers.py:12-18 | the unrounded drawdown is the decline from the first peak to some later element, and no decline from it to a later element is larger |
| Helpers.DrawDownReachedAfterFirstPeak | api/helpers.py:12-18 | the drawdown is the rounded decline from the first peak to some element at or after it |
| Helpers.DrawDownBoundsDeclinesFromFirstPeak | api/helpers.py:12-18 | no rounded decline from the first peak to a later element exceeds the drawdown |
| Helpers.DeclineWithinRange | api/helpers.py:9-18 | the unrounded drawdown lies between 0 and the global maximum minus the global minimum |
| Helpers.DrawDownWithinRange | api/helpers.py:9-18 | the drawdown never exceeds the rounded global range |
| Helpers.PeakIndexConcat | api/helpers.py:9-12 | elements strictly below the maximum put in front of a list shift the first peak by their number |
| Helpers.DrawDownIgnoresPrefix | api/helpers.py:12-15 | elements strictly below the maximum put in front of a list do not change the drawdown |
| Helpers.DrawDownFromPeak | api/helpers.py:12-15 | the drawdown of a list is the drawdown of its slice from the first peak on |
| Helpers.DrawDownZeroWhenPeakIsLast | api/helpers.py:12-18 | a list whose maximum first occurs at its last position has drawdown 0 |
| Helpers.DrawDownSingleton | api/helpers.py:12-18 | a one-element list has drawdown 0 |
| Helpers.DrawDownZeroWhenNonDecreasing | api/helpers.py:9-18 | a list that never goes down has drawdown 0 |
| Helpers.DrawDownShiftInvariant | api/helpers.py:9-18 | adding the same amount to every element leaves the drawdown (or its `ValueError`) unchanged |
| Helpers.DrawDownTiesUseFirstPeak | api/helpers.py:12 | with the maximum at positions 0 and 2 of [3, 1, 3, 2], the first one counts and the drawdown is 2 |
| Helpers.DrawDownOnlyAfterGlobalPeak | api/helpers.py:9-18 | [10, 2, 12, 11] has drawdown 1: the earlier fall from 10 to 2 does not count |
| Helpers.DrawDownExample | api/helpers.py:9-18 | [1, 5, 2, 8, 3] has drawdown 5, not the global range 7 |
| Helpers.SharpeRatioOf | api/helpers.py:29-33 | the `try` body succeeds exactly on two or more samples that are not all equal; fewer samples raise `StatisticsError`, and equal samples raise `ZeroDivisionError` |
| Helpers.TrySharpeRatio | api/helpers.py:27-33 | raises `KeyError("Avg_ROV")` when the key is missing, and otherwise is the `try` body on that list |
| Helpers.SharpeRatio | api/helpers.py:25-37 | 0 when the key is missing, when there are fewer than two samples, or when all samples are equal; otherwise the rounded mean over a positive standard deviation |
| Helpers.SharpeRatioIsMeanOverStdev | api/helpers.py:29-33 | on two or more unequal samples, the result is the rounded mean over the root of the sample variance, and that root is positive |
| Helpers.SharpeRatioSign | api/helpers.py:33-37 | the ratio (or its fallback 0) is non-negative when the mean is, and non-positive when the mean is |
| Helpers.AllEqualScale | api/helpers.py:29 | a non-zero factor neither creates nor removes a difference between samples |
| Helpers.MeanAndStdevScale | api/helpers.py:29-31 | a positive factor scales the mean and the standard deviation alike |
| Helpers.MeanOverStdevScale | api/helpers.py:29-33 | the unrounded ratio is unchanged when every sample is scaled by a positive factor |
| Helpers.SharpeRatioScaleInvariant | api/helpers.py:29-33 | giving the returns in another positive unit does not change the ratio or which exception is raised |
| Helpers.SharpeRatioExample | api/helpers.py:29-33 | [1, 2, 3] has mean 2, standard deviation 1 and Sharpe ratio 2 |

## Left out

- Floating point: numbers are exact reals. IEEE-754 rounding of `-`, `/` and
  `round` is not modelled, and neither is the float conversion inside the
  `statistics` module.
- NaN and the infinities are not represented. A list holding `nan` makes
  `maxDrawDown` return `nan` rather than a non-negative number, and
  infinite elements can give `inf` or `nan`; `MaxDrawDown`'s `0 <= r`
  holds for finite inputs only.
- Statistics.Stdev: the square root is a parameter `sqrt`. It is only known
  to give the non-negative root of every non-negative number, so results
  whose root is irrational are stated through `sqrt` and not computed.
- Dynamic typing: `value` is a dictionary whose entries are lists of
  numbers. A `value` of another type, entries that are not lists, and
  non-numeric elements would raise `TypeError`, which the bare `except` turns
  into 0. The model does not represent such inputs.
- Python `max` and `min` return the first of several equal elements. Equal
  reals are indistinguishable, so this choice is not modelled.
- The `except` branch returns the integer `0`, and the model returns the
  real `0.0`.
- The helpers do not change their input. The model has this by
  construction, since sequences and maps are values, so it is not stated
  separately.
- The HTTP routes, the JWT and bcrypt authentication, database access, the
  logger and the application start-up are not part of this model. They are
  I/O and library plumbing.
- No aggregation of positions into per-strategy lists appears in the
  modelled source, so none is modelled. The model starts from the lists
  the helpers receive.
