/** Which rows of a group patterns are made from (samplePositions of parser.go), over
    exact arithmetic. */
module Sampling {
  import opened GreedyMatch

  /** math.Ceil */
  function CeilOf(x: real): int {
    -((-x).Floor)
  }

  /** math.Round of a number that is not negative */
  function RoundOf(x: real): int {
    (x + 0.5).Floor
  }

  /** The distance between two of k positions spread over n rows. */
  function StepOf(n: nat, k: nat): real
    requires 1 < k
  {
    (n - 1) as real / (k - 1) as real
  }

  /** The row at which position i of k falls. */
  function PositionAt(n: nat, k: nat, i: nat): nat
    requires 1 < k < n && i < k
  {
    PositionNat(n, k, i);
    RoundOf(i as real * StepOf(n, k))
  }

  /** k of n row positions, evenly spaced from the first to the last. */
  function Evenly(n: nat, k: nat): (pos: seq<nat>)
    requires 0 < k < n
    ensures |pos| == k
  {
    if k == 1 then [0]
    else seq(k, i requires 0 <= i < k => PositionAt(n, k, i))
  }

  /** The sampled positions; None when every row is taken. */
  function PositionsOf(n: nat, sample: real): Option<seq<nat>>
    requires 0.0 < sample
  {
    if n <= 1 || sample >= 1.0 then None
    else
      SizePositive(n, sample);
      var k: nat := CeilOf(n as real * sample);
      if k >= n then None else Some(Evenly(n, k))
  }

  lemma SizePositive(n: nat, sample: real)
    requires n > 0 && 0.0 < sample
    ensures CeilOf(n as real * sample) >= 1
  {
    assert n as real * sample > 0.0;
  }

  lemma PositionNat(n: nat, k: nat, i: nat)
    requires 1 < k < n && i < k
    ensures RoundOf(i as real * StepOf(n, k)) >= 0
  {
    assert i as real * StepOf(n, k) >= 0.0;
  }

  lemma StepsToEnd(n: nat, k: nat)
    requires 1 < k < n
    ensures (k - 1) as real * StepOf(n, k) == (n - 1) as real
    ensures StepOf(n, k) > 1.0
  {
    var a, b := (n - 1) as real, (k - 1) as real;
    assert b * (a / b) == a;
    Above(a / b, b, a);
  }

  lemma Above(q: real, b: real, a: real)
    requires b * q == a && a > b > 0.0
    ensures q > 1.0
  {
    if q <= 1.0 {
      RealMul(q, 1.0, b);
    }
  }

  /** Consecutive positions differ: the rounded multiples of a step above one are
      strictly ascending. */
  lemma PositionsAscend(n: nat, k: nat, i: nat)
    requires 1 < k < n && i + 1 < k
    ensures PositionAt(n, k, i) < PositionAt(n, k, i + 1)
  {
    StepsToEnd(n, k);
    var step := StepOf(n, k);
    assert (i + 1) as real * step == i as real * step + step;
  }

  lemma PositionBound(n: nat, k: nat, i: nat)
    requires 1 < k < n && i < k
    ensures PositionAt(n, k, i) <= n - 1
    ensures i == k - 1 ==> PositionAt(n, k, i) == n - 1
  {
    StepsToEnd(n, k);
    RealMul(i as real, (k - 1) as real, StepOf(n, k));
  }

  lemma RealMul(a: real, b: real, c: real)
    requires a <= b && c >= 0.0
    ensures a * c <= b * c
  {
  }

  lemma FirstPosition(n: nat, k: nat)
    requires 1 < k < n
    ensures PositionAt(n, k, 0) == 0
  {
  }

  /** The positions are strictly ascending rows, the first and (of several) the last among them. */
  lemma {:induction false} EvenlySpread(n: nat, k: nat, i: nat, j: nat)
    requires 0 < k < n && i <= j < k
    ensures Evenly(n, k)[j] < n && Evenly(n, k)[0] == 0 && (k > 1 ==> Evenly(n, k)[k - 1] == n - 1)
    ensures i < j ==> Evenly(n, k)[i] < Evenly(n, k)[j]
    decreases j
  {
    if k > 1 {
      hide PositionAt;
      PositionBound(n, k, j);
      PositionBound(n, k, k - 1);
      FirstPosition(n, k);
      if i < j {
        PositionsAscend(n, k, j - 1);
        EvenlySpread(n, k, i, j - 1);
      }
    }
  }

  /** How many rows are sampled: the smallest number that is no smaller than the share asked for.
      Every row is taken exactly if that number is n. */
  lemma SampleSize(n: nat, sample: real)
    requires 0.0 < sample
    ensures PositionsOf(n, sample).None? <==> n as real * sample > n as real - 1.0
    ensures PositionsOf(n, sample).Some? ==>
      n as real * sample <= |PositionsOf(n, sample).value| as real < n as real * sample + 1.0
  {
    if n <= 1 || sample >= 1.0 {
      FewRows(n, sample);
    }
    CeilBounds(n as real * sample);
    hide CeilOf, Evenly;
  }

  lemma CeilBounds(x: real)
    ensures CeilOf(x) as real - 1.0 < x <= CeilOf(x) as real
  {
  }

  lemma FewRows(n: nat, sample: real)
    requires 0.0 < sample && (n <= 1 || sample >= 1.0)
    ensures n as real * sample > n as real - 1.0
  {
    if sample >= 1.0 {
      RealMul(1.0, sample, n as real);
    } else if n == 1 {
      assert n as real == 1.0;
    }
  }

  /** Position i of k is the row nearest to i * (n - 1) / (k - 1), the later one of two. */
  lemma PositionNearest(n: nat, k: nat, i: nat)
    requires 1 < k < n && i < k
    ensures var p := Evenly(n, k)[i];
      2 * (p * (k - 1)) <= 2 * (i * (n - 1)) + (k - 1) < 2 * ((p + 1) * (k - 1))
  {
    var p, x := PositionAt(n, k, i), i as real * StepOf(n, k);
    assert p as real <= x + 0.5 < p as real + 1.0;
    ProductWithStep(n, k, i);
    hide StepOf, Times, PositionAt;
    IntTimes(p, k - 1);
    IntTimes(p + 1, k - 1);
    Scaled(p, x, k - 1, i * (n - 1), p * (k - 1), (p + 1) * (k - 1));
  }

  function Times(a: real, b: real): real {
    a * b
  }

  lemma ProductWithStep(n: nat, k: nat, i: nat)
    requires 1 < k < n
    ensures Times(i as real * StepOf(n, k), (k - 1) as real) == (i * (n - 1)) as real
  {
    StepsToEnd(n, k);
    hide StepOf;
    MulSwap(i as real, StepOf(n, k), (k - 1) as real);
    IntTimes(i, n - 1);
  }

  lemma MulSwap(a: real, b: real, c: real)
    ensures a * b * c == a * (c * b)
  {
  }

  lemma IntTimes(a: nat, b: nat)
    ensures Times(a as real, b as real) == (a * b) as real
  {
  }

  /** A rounded quotient, without the division. */
  lemma Scaled(p: nat, x: real, d: nat, m: nat, lo: nat, hi: nat)
    requires p as real <= x + 0.5 < p as real + 1.0 && d > 0 && Times(x, d as real) == m as real
    requires lo as real == Times(p as real, d as real) && hi as real == Times((p + 1) as real, d as real)
    ensures 2 * lo <= 2 * m + d < 2 * hi
  {
    hide Times;
    Between(p as real, x, (p + 1) as real, d as real);
    assert (2 * lo) as real <= (2 * m + d) as real < (2 * hi) as real;
  }

  lemma Between(a: real, x: real, b: real, d: real)
    requires a <= x + 0.5 < b && d > 0.0
    ensures Times(a, d) <= Times(x, d) + 0.5 * d < Times(b, d)
  {
    var y := x + 0.5;
    HalfMore(x, d);
    RealMul(a, y, d);
    Stretch(y, b, d);
    assert Times(y, d) == y * d && Times(b, d) == b * d && Times(a, d) == a * d;
    hide Times;
  }

  lemma HalfMore(x: real, d: real)
    ensures Times(x + 0.5, d) == Times(x, d) + 0.5 * d
  {
  }

  lemma Stretch(a: real, b: real, d: real)
    requires a < b && d > 0.0
    ensures a * d < b * d
  {
    assert (b - a) * d == b * d - a * d;
  }

  /** The sampled rows, without rounding: row 0 alone, or the rows nearest to even spacing. */
  lemma SampledRows(n: nat, sample: real)
    requires 0.0 < sample && PositionsOf(n, sample).Some?
    ensures var pos := PositionsOf(n, sample).value;
      && 0 < |pos| < n && pos[0] == 0
      && forall i :: 0 <= i < |pos| && |pos| > 1 ==>
           2 * (pos[i] * (|pos| - 1)) <= 2 * (i * (n - 1)) + (|pos| - 1) < 2 * ((pos[i] + 1) * (|pos| - 1))
  {
    SizePositive(n, sample);
    var k: nat := CeilOf(n as real * sample);
    assert PositionsOf(n, sample) == Some(Evenly(n, k));
    hide PositionsOf, Evenly, CeilOf;
    EvenlySpread(n, k, 0, 0);
    if k > 1 {
      forall i | 0 <= i < k
        ensures var p := Evenly(n, k)[i];
          2 * (p * (k - 1)) <= 2 * (i * (n - 1)) + (k - 1) < 2 * ((p + 1) * (k - 1))
      {
        PositionNearest(n, k, i);
      }
    }
  }

  /** samplePositions. With exact arithmetic neither guard inside the loop ever fires. */
  method SamplePositions(n: nat, sample: real) returns (pos: Option<seq<nat>>)
    requires 0.0 < sample <= 1.0
    ensures pos == PositionsOf(n, sample)
    ensures pos.None? <==> n as real * sample > n as real - 1.0
    ensures pos.Some? ==> n as real * sample <= |pos.value| as real < n as real * sample + 1.0
  {
    SampleSize(n, sample);
    if n <= 1 || sample >= 1.0 {
      return None;
    }
    SizePositive(n, sample);
    var sampleN := CeilOf(n as real * sample);
    if sampleN < 1 {
      sampleN := 1;
    }
    if sampleN >= n {
      return None;
    }
    if sampleN == 1 {
      return Some([0]);
    }
    var out: seq<nat> := [];
    var step := StepOf(n, sampleN);
    var prev := -1;
    for i := 0 to sampleN
      invariant |out| == i && out == Evenly(n, sampleN)[..i]
      invariant prev == if i == 0 then -1 else out[i - 1]
    {
      var idx := RoundOf(i as real * step);
      EvenlySpread(n, sampleN, if i == 0 then 0 else i - 1, i);
      assert idx == Evenly(n, sampleN)[i];
      if idx <= prev {
        idx := prev + 1;
      }
      if idx >= n {
        idx := n - 1;
      }
      out := out + [idx];
      prev := idx;
    }
    assert Evenly(n, sampleN)[..sampleN] == Evenly(n, sampleN);
    pos := Some(out);
  }
}
