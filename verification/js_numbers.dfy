/** The JavaScript number behaviours the habit statistics depend on: `Math.round`
    of a quotient, `Math.max` of a spread list, and the two non-finite values
    (`NaN`, `-Infinity`) that the statistics can produce. Every quantity in the
    model is an integer, so only these three behaviours need modelling. */
module JsNumbers {

  /** A statistic as JavaScript computes it: an integer, `NaN` (from `0 / 0`) or
      `-Infinity` (from `Math.max()` with no arguments). */
  datatype Num = Finite(value: int) | NaN | NegInfinity

  /** `Math.round(a / b)` for a positive divisor: the integer nearest to `a / b`,
      with halves rounded towards positive infinity. */
  function RoundDiv(a: int, b: int): (r: int)
    requires b > 0
    ensures 2 * b * r <= 2 * a + b < 2 * b * r + 2 * b
  {
    (2 * a + b) / (2 * b)
  }

  /** `Math.max(...xs)`: `-Infinity` for an empty list, otherwise the largest element. */
  function MathMax(xs: seq<int>): (r: Num)
    ensures r != NaN
    ensures r == NegInfinity <==> |xs| == 0
    ensures r.Finite? ==> (forall i :: 0 <= i < |xs| ==> xs[i] <= r.value)
    ensures r.Finite? ==> (exists i :: 0 <= i < |xs| && xs[i] == r.value)
  {
    if |xs| == 0 then NegInfinity
    else
      var m := MathMax(xs[..|xs| - 1]);
      var x := xs[|xs| - 1];
      assert forall i :: 0 <= i < |xs| - 1 ==> xs[..|xs| - 1][i] == xs[i];
      if m.NegInfinity? then Finite(x)
      else if x > m.value then Finite(x)
      else Finite(m.value)
  }

  /** `Math.max(...xs, 0)`: the spread list with a trailing 0, which is never empty. */
  function MathMaxSeeded(xs: seq<int>): (r: int)
    ensures r >= 0
    ensures forall i :: 0 <= i < |xs| ==> xs[i] <= r
    ensures r == 0 || exists i :: 0 <= i < |xs| && xs[i] == r
  {
    var m := MathMax(xs + [0]);
    assert forall i :: 0 <= i < |xs| ==> (xs + [0])[i] == xs[i];
    assert (xs + [0])[|xs|] == 0;
    m.value
  }
}
