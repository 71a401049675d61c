/** The one-pass variance aggregate against the two-pass definition, over exact arithmetic. */
module Variance {
  import opened OrderStatistics

  function Sum(xs: seq<real>): real {
    if xs == [] then 0.0 else Sum(xs[..|xs| - 1]) + xs[|xs| - 1]
  }

  function Square(x: real): real {
    x * x
  }

  /** Squared distances from `m`, added up. */
  function Spread(xs: seq<real>, m: real): real {
    if xs == [] then 0.0 else Spread(xs[..|xs| - 1], m) + Square(xs[|xs| - 1] - m)
  }

  function Mean(xs: seq<real>): real {
    if xs == [] then 0.0 else Sum(xs) / |xs| as real
  }

  /** The two-pass sample variance. */
  function SampleVariance(xs: seq<real>): real {
    if |xs| <= 1 then 0.0 else Spread(xs, Mean(xs)) / (|xs| - 1) as real
  }

  lemma MeanTimes(xs: seq<real>)
    ensures Mean(xs) * |xs| as real == Sum(xs)
  {
  }

  /** Squared distances around `a`, moved to the centre `b`. */
  function Moved(spread: real, sum: real, n: real, a: real, b: real): real {
    spread - 2.0 * (b - a) * (sum - n * a) + n * Square(b - a)
  }

  lemma {:induction false} Recentre(xs: seq<real>, a: real, b: real)
    ensures Spread(xs, b) == Moved(Spread(xs, a), Sum(xs), |xs| as real, a, b)
  {
    if xs != [] {
      var most, x := xs[..|xs| - 1], xs[|xs| - 1];
      Recentre(most, a, b);
      MoveOne(Spread(most, a), Sum(most), |most| as real, x, a, b);
      assert |most| as real + 1.0 == |xs| as real;
    }
  }

  lemma MoveOne(spread: real, sum: real, n: real, x: real, a: real, b: real)
    ensures Moved(spread, sum, n, a, b) + Square(x - b) == Moved(spread + Square(x - a), sum + x, n + 1.0, a, b)
  {
    var k, d, u := b - a, x - a, sum - n * a;
    assert x - b == d - k;
    assert Square(d - k) == Square(d) - 2.0 * k * d + Square(k);
    assert (sum + x) - (n + 1.0) * a == u + d;
    assert 2.0 * k * (u + d) == 2.0 * k * u + 2.0 * k * d;
    assert (n + 1.0) * Square(k) == n * Square(k) + Square(k);
  }

  function NextMean(m: real, x: real, n: real): real
    requires n > 0.0
  {
    m + (x - m) / n
  }

  function NextSpread(s: real, m: real, b: real, x: real): real {
    s + (x - m) * (x - b)
  }

  /** The running mean after one more value. */
  lemma MeanStep(xs: seq<real>, x: real)
    ensures Mean(xs + [x]) == NextMean(Mean(xs), x, (|xs| + 1) as real)
  {
    assert (xs + [x])[..|xs|] == xs;
    MeanTimes(xs);
    MeanQuotient(Sum(xs), Mean(xs), |xs| as real, x);
  }

  lemma MeanQuotient(sum: real, m: real, n: real, x: real)
    requires n >= 0.0 && m * n == sum
    ensures (sum + x) / (n + 1.0) == m + (x - m) / (n + 1.0)
  {
    var q := (x - m) / (n + 1.0);
    assert q * (n + 1.0) == x - m;
    assert (m + q) * (n + 1.0) == m * n + m + (x - m);
    assert (m + q) * (n + 1.0) == sum + x;
  }

  /** The running sum of squares after one more value. */
  lemma SpreadStep(xs: seq<real>, x: real)
    ensures var m, b := Mean(xs), Mean(xs + [x]);
      Spread(xs + [x], b) == NextSpread(Spread(xs, m), m, b, x)
  {
    MeanTimes(xs);
    MeanStep(xs, x);
    SpreadFrom(xs, x, Mean(xs), Mean(xs + [x]));
  }

  lemma SpreadFrom(xs: seq<real>, x: real, m: real, b: real)
    requires m * |xs| as real == Sum(xs) && b == NextMean(m, x, (|xs| + 1) as real)
    ensures Spread(xs + [x], b) == NextSpread(Spread(xs, m), m, b, x)
  {
    assert (xs + [x])[..|xs|] == xs;
    Recentre(xs, m, b);
    StepSquares(Spread(xs, m), Sum(xs), |xs| as real, m, b, x);
  }

  lemma StepSquares(s: real, sum: real, n: real, m: real, b: real, x: real)
    requires n >= 0.0 && b == NextMean(m, x, n + 1.0) && m * n == sum
    ensures Moved(s, sum, n, m, b) + Square(x - b) == NextSpread(s, m, b, x)
  {
    var k := b - m;
    assert sum - n * m == 0.0;
    assert x - m == (n + 1.0) * k;
    assert x - b == n * k;
    assert Square(n * k) == n * k * (n * k);
    assert (n + 1.0) * k * (n * k) == n * k * (n * k) + k * (n * k);
    assert n * Square(k) == k * (n * k);
  }

  class StdevCtx {
    var rM: real
    var rS: real
    var cnt: nat

    /** The context has been stepped through exactly the rows `vs`. */
    ghost predicate Holds(vs: seq<Input>)
      reads this
    {
      var xs := Doubles(Rows(vs));
      cnt == |xs| && rM == Mean(xs) && rS == Spread(xs, Mean(xs))
    }

    constructor ()
      ensures Holds([])
    {
      rM, rS, cnt := 0.0, 0.0, 0;
    }

    /** `varianceStep`. */
    method Step(v: Input, ghost vs: seq<Input>)
      requires Holds(vs)
      modifies this
      ensures Holds(vs + [v])
    {
      RowsAppend(vs, v);
      if v.Given? {
        ghost var xs := Doubles(Rows(vs));
        assert Doubles(Rows(vs + [v])) == xs + [v.asDouble];
        MeanStep(xs, v.asDouble);
        SpreadStep(xs, v.asDouble);
        cnt := cnt + 1;
        var x := v.asDouble;
        var m := rM;
        rM := NextMean(m, x, cnt as real);
        rS := NextSpread(rS, m, rM, x);
      }
    }

    /** `varianceFinalize`. */
    method Finish(ghost vs: seq<Input>) returns (r: real)
      requires Holds(vs)
      ensures r == SampleVariance(Doubles(Rows(vs)))
    {
      r := if cnt > 1 then rS / (cnt - 1) as real else 0.0;
    }
  }

  /** Two values vary by half the square of their difference. */
  lemma TwoValues(a: real, b: real)
    ensures SampleVariance([a, b]) == Square(a - b) / 2.0
  {
    var xs, m := [a, b], (a + b) / 2.0;
    assert xs[..1] == [a] && [a][..0] == [];
    assert Sum([a]) == a && Sum(xs) == a + b && Mean(xs) == m;
    assert Spread([a], m) == Square(a - m) && Spread(xs, m) == Square(a - m) + Square(b - m);
    var h := (a - b) / 2.0;
    assert a - m == h && b - m == -h;
    assert Square(h) == Square(-h) && Square(a - b) == 4.0 * Square(h);
  }
}
