/** Integer utilities of the fixture program: 32-bit addition and
    multiplication, summary statistics of a vector, and the (deliberately
    lenient) "strictly increasing" test. A C++ `int` is the newtype `Int32`;
    `std::vector<int>` is a `seq<Int32>`. */
module MathUtils {

  const INT_MIN: int := -0x8000_0000
  const INT_MAX: int := 0x7FFF_FFFF

  /** The values of a 32-bit two's-complement C++ `int`. */
  newtype Int32 = x: int | -0x8000_0000 <= x < 0x8000_0000

  predicate InInt32(x: int) { INT_MIN <= x <= INT_MAX }

  // ---------------------------------------------------------------------------
  // add / multiply
  // ---------------------------------------------------------------------------

  /** `add`: signed overflow is undefined behaviour in C++, so callers must keep
      the exact sum inside `int`; then the result is that exact sum. */
  function Add(a: Int32, b: Int32): (r: Int32)
    requires InInt32(a as int + b as int)
    ensures r as int == a as int + b as int
  {
    a + b
  }

  /** `multiply`: callers must keep the exact product inside `int`; then the
      result is that exact product. */
  function Multiply(a: Int32, b: Int32): (r: Int32)
    requires InInt32(a as int * b as int)
    ensures r as int == a as int * b as int
  {
    a * b
  }

  // ---------------------------------------------------------------------------
  // compute_stats
  // ---------------------------------------------------------------------------

  /** `Stats`: the mean, minimum and maximum of a vector. The C++ fields are
      `double`; `min` and `max` hold `int` values, which a `double` represents
      exactly, and `mean` is the exact quotient (see README, "Left out"). */
  datatype Stats = Stats(mean: real, min: int, max: int)

  /** The exact sum of the values (the `long long` accumulator of
      `compute_stats`). */
  function Sum(s: seq<Int32>): int
  {
    if s == [] then 0 else Sum(s[..|s| - 1]) + s[|s| - 1] as int
  }

  /** The sum of n `int`s lies within n times the `int` range; in particular a
      64-bit `long long` cannot overflow while summing fewer than 2^32 of them. */
  lemma {:induction false} SumBounds(s: seq<Int32>)
    ensures |s| * INT_MIN <= Sum(s) <= |s| * INT_MAX
    ensures |s| < 0x1_0000_0000 ==> -0x8000_0000_0000_0000 <= Sum(s) < 0x8000_0000_0000_0000
  {
    if s != [] {
      SumBounds(s[..|s| - 1]);
    }
  }

  /** Appending one value adds it to the sum. */
  lemma SumSnoc(s: seq<Int32>, i: nat)
    requires i < |s|
    ensures Sum(s[..i + 1]) == Sum(s[..i]) + s[i] as int
  {
    assert s[..i + 1][..i] == s[..i];
  }

  /** `compute_stats`: all zero for an empty vector; otherwise the exact mean,
      a minimum that is one of the values and below-or-equal all of them, and
      a maximum that is one of the values and above-or-equal all of them. */
  method ComputeStats(values: seq<Int32>) returns (s: Stats)
    ensures |values| == 0 ==> s == Stats(0.0, 0, 0)
    ensures |values| > 0 ==> s.mean == Sum(values) as real / |values| as real
    ensures |values| > 0 ==> exists k :: 0 <= k < |values| && values[k] as int == s.min
    ensures |values| > 0 ==> exists k :: 0 <= k < |values| && values[k] as int == s.max
    ensures forall k :: 0 <= k < |values| ==> s.min <= values[k] as int <= s.max
  {
    if |values| == 0 {
      return Stats(0.0, 0, 0);
    }
    var sum: int := 0;
    var minVal: Int32 := INT_MAX as Int32;
    var maxVal: Int32 := INT_MIN as Int32;
    var i := 0;
    while i < |values|
      invariant 0 <= i <= |values|
      invariant sum == Sum(values[..i])
      invariant forall k :: 0 <= k < i ==> minVal <= values[k] <= maxVal
      invariant minVal as int == INT_MAX || exists k :: 0 <= k < i && values[k] == minVal
      invariant maxVal as int == INT_MIN || exists k :: 0 <= k < i && values[k] == maxVal
    {
      var v := values[i];
      SumSnoc(values, i);
      sum := sum + v as int;
      if v < minVal { minVal := v; }
      if v > maxVal { maxVal := v; }
      i := i + 1;
    }
    assert values[..i] == values;
    // The sentinels survive only when they are themselves values: a vector
    // whose minimum is INT_MAX consists of INT_MAX alone.
    assert minVal as int == INT_MAX ==> values[0] == minVal;
    assert maxVal as int == INT_MIN ==> values[0] == maxVal;
    s := Stats(sum as real / |values| as real, minVal as int, maxVal as int);
  }

  // ---------------------------------------------------------------------------
  // is_strictly_increasing
  // ---------------------------------------------------------------------------

  /** What the name promises: every element is greater than the one before. */
  predicate StrictlyIncreasing(s: seq<Int32>)
  {
    forall i :: 1 <= i < |s| ==> s[i - 1] < s[i]
  }

  /** What `is_strictly_increasing` accepts: its loop starts at index 2, so
      only the pairs from (values[1], values[2]) onward are compared. */
  predicate IncreasingAfterFirstPair(s: seq<Int32>)
  {
    forall i :: 2 <= i < |s| ==> s[i - 1] < s[i]
  }

  /** `is_strictly_increasing` as written: true for size at most 1; otherwise
      false at the first i >= 2 with values[i] <= values[i - 1], else true. */
  method IsStrictlyIncreasing(values: seq<Int32>) returns (r: bool)
    ensures |values| <= 1 ==> r
    ensures r == IncreasingAfterFirstPair(values)
  {
    if |values| <= 1 {
      return true;
    }
    var i := 2;
    while i < |values|
      invariant 2 <= i <= |values|
      invariant forall k :: 2 <= k < i ==> values[k - 1] < values[k]
    {
      if values[i] <= values[i - 1] {
        return false;
      }
      i := i + 1;
    }
    return true;
  }

  /** Every truly increasing vector is accepted. */
  lemma AcceptsStrictlyIncreasing(s: seq<Int32>)
    requires StrictlyIncreasing(s)
    ensures IncreasingAfterFirstPair(s)
  {
  }

  /** The accepted vectors are exactly those whose tail after the first
      element is strictly increasing. */
  lemma AcceptedIffTailIncreasing(s: seq<Int32>)
    ensures IncreasingAfterFirstPair(s) <==> (|s| <= 1 || StrictlyIncreasing(s[1..]))
  {
  }

  /** The accepted vectors are the truly increasing ones exactly when the
      unchecked first pair is in order. */
  lemma AcceptedIffIncreasingWhenFirstPairOrdered(s: seq<Int32>)
    requires |s| >= 2
    ensures StrictlyIncreasing(s) <==> s[0] < s[1] && IncreasingAfterFirstPair(s)
  {
  }

  /** The first pair is never compared: [5, 1] is accepted although it
      decreases. */
  lemma FirstPairUnchecked()
    ensures IncreasingAfterFirstPair([5, 1]) && !StrictlyIncreasing([5, 1])
  {
    var s: seq<Int32> := [5, 1];
    assert !(s[0] < s[1]);
  }
}
