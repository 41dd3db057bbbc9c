/** The pieces of Python the metric helpers are built from: the exceptions
    they can raise, dictionary subscripting, `max`, `min`, `list.index` and
    the `/` operator. Lists of numbers are `seq<real>`; a dictionary whose
    values are such lists is a `map`. */
module Builtins {

  /** The Python exceptions the helpers can raise inside their `try`. */
  datatype Exception =
    | KeyError(key: string)   // `value[key]` on a missing key
    | ValueError              // `max([])`, `min([])`, `xs.index(x)` with `x` absent
    | StatisticsError         // `statistics.stdev` / `statistics.mean` on too few points
    | ZeroDivisionError       // `a / 0.0`

  /** The outcome of a Python expression: a value, or the exception it raised. */
  datatype Result<T> = Ok(value: T) | Err(error: Exception) {
    predicate IsFailure() {
      Err?
    }

    function PropagateFailure<U>(): Result<U>
      requires Err?
    {
      Err(error)
    }

    function Extract(): T
      requires Ok?
    {
      value
    }
  }

  /** `d[key]` for a dictionary `d`. */
  function Subscript<V>(d: map<string, V>, key: string): (r: Result<V>)
    ensures r.Ok? <==> key in d
    ensures r.Ok? ==> r.value == d[key]
    ensures r.Err? ==> r.error == KeyError(key)
  {
    if key in d then Ok(d[key]) else Err(KeyError(key))
  }

  /** The largest element of a non-empty list. */
  function Maximum(s: seq<real>): (m: real)
    requires |s| > 0
    ensures m in s
    ensures forall i :: 0 <= i < |s| ==> s[i] <= m
  {
    MaximumFrom(s, 0)
  }

  /** The largest of `s[i]`, ..., `s[|s| - 1]`, scanning by index. */
  function MaximumFrom(s: seq<real>, i: nat): (m: real)
    requires i < |s|
    ensures exists j :: i <= j < |s| && s[j] == m
    ensures forall j :: i <= j < |s| ==> s[j] <= m
    decreases |s| - i
  {
    if i == |s| - 1 then s[i]
    else
      var rest := MaximumFrom(s, i + 1);
      if rest > s[i] then rest else s[i]
  }

  /** The smallest element of a non-empty list. */
  function Minimum(s: seq<real>): (m: real)
    requires |s| > 0
    ensures m in s
    ensures forall i :: 0 <= i < |s| ==> m <= s[i]
  {
    MinimumFrom(s, 0)
  }

  /** The smallest of `s[i]`, ..., `s[|s| - 1]`, scanning by index. */
  function MinimumFrom(s: seq<real>, i: nat): (m: real)
    requires i < |s|
    ensures exists j :: i <= j < |s| && s[j] == m
    ensures forall j :: i <= j < |s| ==> m <= s[j]
    decreases |s| - i
  {
    if i == |s| - 1 then s[i]
    else
      var rest := MinimumFrom(s, i + 1);
      if rest < s[i] then rest else s[i]
  }

  /** `max(s)`: raises ValueError on an empty list. */
  function Max(s: seq<real>): (r: Result<real>)
    ensures r.Ok? <==> |s| > 0
    ensures r.Err? ==> r.error == ValueError
    ensures r.Ok? ==> r.value == Maximum(s)
  {
    if |s| == 0 then Err(ValueError) else Ok(Maximum(s))
  }

  /** `min(s)`: raises ValueError on an empty list. */
  function Min(s: seq<real>): (r: Result<real>)
    ensures r.Ok? <==> |s| > 0
    ensures r.Err? ==> r.error == ValueError
    ensures r.Ok? ==> r.value == Minimum(s)
  {
    if |s| == 0 then Err(ValueError) else Ok(Minimum(s))
  }

  /** `s.index(x)`: the position of the first element equal to `x`, or
      ValueError when there is none. */
  function IndexOf(s: seq<real>, x: real): (r: Result<nat>)
    ensures r.Ok? <==> x in s
    ensures r.Err? ==> r.error == ValueError
    ensures r.Ok? ==> r.value < |s| && s[r.value] == x
    ensures r.Ok? ==> forall j :: 0 <= j < r.value ==> s[j] != x
  {
    IndexFrom(s, x, 0)
  }

  /** `s.index(x, i)`: the search for `x` started at position `i`. */
  function IndexFrom(s: seq<real>, x: real, i: nat): (r: Result<nat>)
    requires i <= |s|
    ensures r.Ok? <==> exists j :: i <= j < |s| && s[j] == x
    ensures r.Err? ==> r.error == ValueError
    ensures r.Ok? ==> i <= r.value < |s| && s[r.value] == x
    ensures r.Ok? ==> forall j :: i <= j < r.value ==> s[j] != x
    decreases |s| - i
  {
    if i == |s| then Err(ValueError)
    else if s[i] == x then Ok(i)
    else IndexFrom(s, x, i + 1)
  }

  /** `a / b` on floats: raises ZeroDivisionError when `b` is zero. */
  function Divide(a: real, b: real): (r: Result<real>)
    ensures r.Ok? <==> b != 0.0
    ensures r.Err? ==> r.error == ZeroDivisionError
    ensures r.Ok? ==> r.value * b == a
  {
    if b == 0.0 then Err(ZeroDivisionError) else Ok(a / b)
  }

  /** An element that bounds the list from above is its maximum. */
  lemma MaximumIs(s: seq<real>, m: real)
    requires m in s
    requires forall i :: 0 <= i < |s| ==> s[i] <= m
    ensures Maximum(s) == m
  {
  }

  /** An element that bounds the list from below is its minimum. */
  lemma MinimumIs(s: seq<real>, m: real)
    requires m in s
    requires forall i :: 0 <= i < |s| ==> m <= s[i]
    ensures Minimum(s) == m
  {
  }

  /** A position holding `x` with no `x` before it is what `index` finds. */
  lemma IndexOfIs(s: seq<real>, x: real, k: nat)
    requires k < |s| && s[k] == x
    requires forall j :: 0 <= j < k ==> s[j] != x
    ensures IndexOf(s, x) == Ok(k)
  {
  }

  /** Elements strictly below the maximum of `ys`, put in front of it, do
      not change the maximum. */
  lemma MaximumOfConcat(pre: seq<real>, ys: seq<real>)
    requires |ys| > 0
    requires forall i :: 0 <= i < |pre| ==> pre[i] < Maximum(ys)
    ensures Maximum(pre + ys) == Maximum(ys)
  {
    var m, n := Maximum(pre + ys), Maximum(ys);
    assert n in pre + ys by {
      var k :| 0 <= k < |ys| && ys[k] == n;
      assert (pre + ys)[|pre| + k] == n;
    }
    forall i | 0 <= i < |pre + ys|
      ensures (pre + ys)[i] <= n
    {
      if i < |pre| {
        assert (pre + ys)[i] == pre[i];
      } else {
        assert (pre + ys)[i] == ys[i - |pre|];
      }
    }
  }

  /** Looking up a value that does not occur in a prefix skips the prefix. */
  lemma IndexOfConcat(pre: seq<real>, ys: seq<real>, x: real)
    requires x in ys
    requires forall i :: 0 <= i < |pre| ==> pre[i] != x
    ensures IndexOf(pre + ys, x) == Ok(|pre| + IndexOf(ys, x).value)
  {
    var k := IndexOf(ys, x).value;
    assert (pre + ys)[|pre| + k] == x;
    forall j | 0 <= j < |pre| + k
      ensures (pre + ys)[j] != x
    {
      if j < |pre| {
        assert (pre + ys)[j] == pre[j];
      } else {
        assert (pre + ys)[j] == ys[j - |pre|];
      }
    }
  }

  /** The minimum of the suffix from `p` is one of its elements ... */
  lemma SuffixMinimumReached(xs: seq<real>, p: nat)
    requires p < |xs|
    ensures exists j :: p <= j < |xs| && xs[j] == Minimum(xs[p..])
  {
    var k :| 0 <= k < |xs[p..]| && xs[p..][k] == Minimum(xs[p..]);
    assert xs[p + k] == xs[p..][k];
  }

  /** ... bounds it from below ... */
  lemma SuffixMinimumBounds(xs: seq<real>, p: nat)
    requires p < |xs|
    ensures forall j :: p <= j < |xs| ==> Minimum(xs[p..]) <= xs[j]
  {
    forall j | p <= j < |xs|
      ensures Minimum(xs[p..]) <= xs[j]
    {
      assert xs[j] == xs[p..][j - p];
    }
  }

  /** ... and is no smaller than the minimum of the whole list. */
  lemma MinimumOfSuffix(xs: seq<real>, p: nat)
    requires p < |xs|
    ensures Minimum(xs) <= Minimum(xs[p..])
  {
    SuffixMinimumReached(xs, p);
  }
}
