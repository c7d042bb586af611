/** The statistics of the benchmark suite (utils/bench-scheduler.cc): Welford's running mean and second
    moment over six fields, against the two-pass definitions, in exact arithmetic. */
module Welford {
  import opened Common

  datatype PhaseResult = PhaseResult(time: real, rate: real, period: real)

  datatype Result = Result(init: PhaseResult, run: PhaseResult)

  datatype Field = InitTime | InitRate | InitPeriod | RunTime | RunRate | RunPeriod

  function Get(r: Result, f: Field): real {
    match f
    case InitTime => r.init.time
    case InitRate => r.init.rate
    case InitPeriod => r.init.period
    case RunTime => r.run.time
    case RunRate => r.run.rate
    case RunPeriod => r.run.period
  }

  function Column(results: seq<Result>, f: Field): seq<real> {
    if results == [] then [] else Column(results[..|results| - 1], f) + [Get(results[|results| - 1], f)]
  }

  // ---------------------------------------------------------------------------------------------
  // The two-pass definitions

  function Sum(xs: seq<real>): real {
    if xs == [] then 0.0 else Sum(xs[..|xs| - 1]) + xs[|xs| - 1]
  }

  function Mean(xs: seq<real>): real
    requires xs != []
  {
    Sum(xs) / |xs| as real
  }

  function Square(d: real): real {
    d * d
  }

  /** The sum of squared deviations from `c`. */
  function SquaredDeviations(xs: seq<real>, c: real): real {
    if xs == [] then 0.0
    else SquaredDeviations(xs[..|xs| - 1], c) + Square(xs[|xs| - 1] - c)
  }

  function Variance(xs: seq<real>): real
    requires xs != []
  {
    SquaredDeviations(xs, Mean(xs)) / |xs| as real
  }

  // ---------------------------------------------------------------------------------------------
  // One step of the running computation

  /** The new mean and second moment after sample number `count`. */
  function Accumulate(x: real, average: real, moment2: real, count: nat): (real, real)
    requires count > 0
  {
    var deltaPre := x - average;
    var average' := average + deltaPre / count as real;
    var deltaPost := x - average';
    (average', moment2 + deltaPre * deltaPost)
  }

  // ---------------------------------------------------------------------------------------------
  // The closed form of the squared deviations, term by term

  function SumSquares(xs: seq<real>): real {
    if xs == [] then 0.0 else SumSquares(xs[..|xs| - 1]) + Square(xs[|xs| - 1])
  }

  function Cross(xs: seq<real>, c: real): real {
    if xs == [] then 0.0 else Cross(xs[..|xs| - 1], c) + c * xs[|xs| - 1]
  }

  function Repeated(n: nat, v: real): real {
    if n == 0 then 0.0 else Repeated(n - 1, v) + v
  }

  lemma {:induction false} RepeatedIsProduct(n: nat, v: real)
    ensures Repeated(n, v) == n as real * v
  {
    if n == 0 {
    } else {
      RepeatedIsProduct(n - 1, v);
      assert n as real * v == (n - 1) as real * v + v;
    }
  }

  lemma Distribute(c: real, a: real, b: real)
    ensures c * (a + b) == c * a + c * b
  {
  }

  lemma SquareOfDifference(x: real, c: real)
    ensures Square(x - c) == Square(x) - 2.0 * (c * x) + c * c
  {
  }

  /** The cross terms and the constant terms of the squares, in closed form. */
  lemma {:induction false} TermsAreProducts(xs: seq<real>, c: real)
    ensures Cross(xs, c) == c * Sum(xs) && Repeated(|xs|, c * c) == |xs| as real * (c * c)
  {
    RepeatedIsProduct(|xs|, c * c);
    if xs == [] {
    } else {
      TermsAreProducts(xs[..|xs| - 1], c);
      Distribute(c, Sum(xs[..|xs| - 1]), xs[|xs| - 1]);
    }
  }

  lemma {:induction false} DeviationsByTerm(xs: seq<real>, c: real)
    ensures SquaredDeviations(xs, c) == SumSquares(xs) - 2.0 * Cross(xs, c) + Repeated(|xs|, c * c)
  {
    if xs == [] {
    } else {
      DeviationsByTerm(xs[..|xs| - 1], c);
      SquareOfDifference(xs[|xs| - 1], c);
    }
  }

  lemma DeviationsClosedForm(xs: seq<real>, c: real)
    ensures SquaredDeviations(xs, c) == SumSquares(xs) - 2.0 * (c * Sum(xs)) + |xs| as real * (c * c)
  {
    DeviationsByTerm(xs, c);
    TermsAreProducts(xs, c);
  }

  lemma DeviationsAtMean(xs: seq<real>, c: real)
    requires c * |xs| as real == Sum(xs)
    ensures SquaredDeviations(xs, c) == SumSquares(xs) - c * Sum(xs)
  {
    DeviationsClosedForm(xs, c);
    AtMeanAlgebra(Sum(xs), |xs| as real, c);
  }

  lemma AtMeanAlgebra(s: real, n: real, c: real)
    requires c * n == s
    ensures - 2.0 * (c * s) + n * (c * c) == - (c * s)
  {
    assert n * (c * c) == c * (c * n);
  }

  // ---------------------------------------------------------------------------------------------
  // The running pair agrees with the two-pass definitions

  /** What the loop keeps, on the count, the sum and the sum of squares of the samples; before the first
      sample the average is arbitrary. */
  predicate TracksTotals(n: real, s: real, q: real, average: real, moment2: real) {
    (n != 0.0 ==> average * n == s) && moment2 == q - average * s
  }

  predicate Tracks(xs: seq<real>, average: real, moment2: real) {
    TracksTotals(|xs| as real, Sum(xs), SumSquares(xs), average, moment2)
  }

  lemma Quotient(d: real, n: real)
    requires n > 0.0
    ensures d / n * n == d
  {
  }

  lemma QuotientUnique(q: real, d: real, n: real)
    requires n > 0.0 && q * n == d
    ensures q == d / n
  {
  }

  lemma MeanIsUnique(xs: seq<real>, average: real)
    requires xs != []
    ensures average * |xs| as real == Sum(xs) <==> average == Mean(xs)
  {
    Quotient(Sum(xs), |xs| as real);
    if average * |xs| as real == Sum(xs) {
      QuotientUnique(average, Sum(xs), |xs| as real);
    }
  }

  /** The pair the loop keeps is the arithmetic mean and the sum of squared deviations from it. */
  lemma TracksIsTwoPass(xs: seq<real>, average: real, moment2: real)
    requires xs != []
    ensures Tracks(xs, average, moment2) <==> average == Mean(xs) && moment2 == SquaredDeviations(xs, Mean(xs))
  {
    MeanIsUnique(xs, average);
    MeanIsUnique(xs, Mean(xs));
    if average == Mean(xs) {
      DeviationsAtMean(xs, average);
    }
  }

  lemma MeanStep(average: real, n: real, x: real, s: real, e: real)
    requires average * n == s && e * (n + 1.0) == x - average
    ensures (average + e) * (n + 1.0) == s + x
  {
  }

  lemma MomentStep(average: real, average': real, n: real, x: real, s: real)
    requires average * n == s && average' * (n + 1.0) == s + x
    ensures - average * s + (x - average) * (x - average') == x * x - average' * (s + x)
  {
    assert average * (average' * (n + 1.0)) == average * (s + x);
    assert average * (average' * (n + 1.0)) == average' * (average * n) + average' * average;
    assert average' * s + average' * average == average * s + average * x;
    assert (x - average) * (x - average') == x * x - x * average' - average * x + average * average';
  }

  /** One step of the loop on the totals. */
  lemma AccumulateTotals(n: real, s: real, q: real, average: real, moment2: real, x: real, count: nat,
                         n': real, s': real, q': real)
    requires TracksTotals(n, s, q, average, moment2) && (n == 0.0 ==> s == 0.0)
    requires n' == n + 1.0 && s' == s + x && q' == q + Square(x)
    requires count > 0 && count as real == n'
    ensures var (average', moment2') := Accumulate(x, average, moment2, count);
      TracksTotals(n', s', q', average', moment2')
  {
    var e := (x - average) / count as real;
    Quotient(x - average, count as real);
    AccumulateBy(x, average, moment2, count, e);
    TotalsStep(n, s, q, average, moment2, x, e, average + e);
  }

  lemma AccumulateBy(x: real, average: real, moment2: real, count: nat, e: real)
    requires count > 0 && e == (x - average) / count as real
    ensures var (average', moment2') := Accumulate(x, average, moment2, count);
      average' == average + e && moment2' == moment2 + (x - average) * (x - average')
  {
  }

  lemma TotalsStep(n: real, s: real, q: real, average: real, moment2: real, x: real, e: real, average': real)
    requires TracksTotals(n, s, q, average, moment2) && (n == 0.0 ==> s == 0.0)
    requires n >= 0.0 && e * (n + 1.0) == x - average && average' == average + e
    ensures TracksTotals(n + 1.0, s + x, q + Square(x), average', moment2 + (x - average) * (x - average'))
  {
    assert average * n == s;
    MeanStep(average, n, x, s, e);
    MomentStep(average, average', n, x, s);
  }

  lemma Snoc(xs: seq<real>, x: real)
    ensures |xs + [x]| as real == |xs| as real + 1.0
    ensures Sum(xs + [x]) == Sum(xs) + x
    ensures SumSquares(xs + [x]) == SumSquares(xs) + Square(x)
  {
    assert (xs + [x])[..|xs|] == xs;
  }

  lemma AccumulateTracks(xs: seq<real>, x: real, average: real, moment2: real)
    requires Tracks(xs, average, moment2)
    ensures var (average', moment2') := Accumulate(x, average, moment2, |xs| + 1);
      Tracks(xs + [x], average', moment2')
  {
    var ys := xs + [x];
    Snoc(xs, x);
    AccumulateTotals(|xs| as real, Sum(xs), SumSquares(xs), average, moment2, x, |xs| + 1,
                     |ys| as real, Sum(ys), SumSquares(ys));
  }

  /** One step of the running computation is one sample more of the two-pass one, also for the first
      sample, whatever the average was preset to. */
  lemma AccumulateIsTwoPass(xs: seq<real>, x: real, average: real, moment2: real)
    requires xs != [] ==> average == Mean(xs) && moment2 == SquaredDeviations(xs, Mean(xs))
    requires xs == [] ==> moment2 == 0.0
    ensures Accumulate(x, average, moment2, |xs| + 1) == (Mean(xs + [x]), SquaredDeviations(xs + [x], Mean(xs + [x])))
  {
    if xs == [] {
      assert average * 0.0 == 0.0;
    } else {
      TracksIsTwoPass(xs, average, moment2);
    }
    AccumulateTracks(xs, x, average, moment2);
    var (average', moment2') := Accumulate(x, average, moment2, |xs| + 1);
    TracksIsTwoPass(xs + [x], average', moment2');
  }

  // ---------------------------------------------------------------------------------------------
  // The variance is non-negative, and zero only for equal samples

  lemma {:induction false} DeviationsSign(xs: seq<real>, c: real)
    ensures SquaredDeviations(xs, c) >= 0.0
    ensures SquaredDeviations(xs, c) == 0.0 <==> forall i :: 0 <= i < |xs| ==> xs[i] == c
  {
    if xs == [] {
    } else {
      var n := |xs| - 1;
      DeviationsSign(xs[..n], c);
      SquareSign(xs[n] - c, Square(xs[n] - c));
      assert forall i :: 0 <= i < n ==> xs[..n][i] == xs[i];
    }
  }

  lemma SquareSign(d: real, square: real)
    requires square == d * d
    ensures d == 0.0 ==> square == 0.0
    ensures d != 0.0 ==> square > 0.0
  {
    if d > 0.0 {
      PositiveProduct(d, d, square);
    } else if d < 0.0 {
      PositiveProduct(-d, -d, square);
    }
  }

  lemma PositiveProduct(a: real, b: real, product: real)
    requires a > 0.0 && b > 0.0 && product == a * b
    ensures product > 0.0
  {
  }

  lemma VarianceSign(xs: seq<real>)
    requires xs != []
    ensures Variance(xs) >= 0.0
    ensures Variance(xs) == 0.0 <==> forall i :: 0 <= i < |xs| ==> xs[i] == Mean(xs)
  {
    DeviationsSign(xs, Mean(xs));
  }

  /** The variance is the squared deviations shared among all samples, not one less. */
  lemma VarianceShares(xs: seq<real>)
    requires xs != []
    ensures Variance(xs) * |xs| as real == SquaredDeviations(xs, Mean(xs))
  {
    var d, n := SquaredDeviations(xs, Mean(xs)), |xs| as real;
    assert Variance(xs) == d / n;
    Quotient(d, n);
  }

  /** The squared deviations without a second pass. */
  lemma ClosedAtMean(xs: seq<real>, m: real)
    requires xs != [] && m == Mean(xs)
    ensures SquaredDeviations(xs, m) == SumSquares(xs) - m * Sum(xs)
  {
    MeanIsUnique(xs, m);
    DeviationsAtMean(xs, m);
  }

  /** For two samples it is a quarter of the square of their difference. */
  lemma VarianceOfTwo(x: real, y: real)
    ensures Mean([x, y]) == (x + y) / 2.0 && Variance([x, y]) == (x - y) * (x - y) / 4.0
  {
    assert [x, y][..1] == [x] && [x][..0] == [];
    assert Sum([x]) == x && Sum([x, y]) == x + y;
    var m := Mean([x, y]);
    assert SquaredDeviations([x], m) == Square(x - m);
    assert SquaredDeviations([x, y], m) == Square(x - m) + Square(y - m);
    HalfDifference(x, y, m);
  }

  lemma HalfDifference(x: real, y: real, m: real)
    requires m == (x + y) / 2.0
    ensures Square(x - m) + Square(y - m) == (x - y) * (x - y) / 2.0
  {
    var h := (x - y) / 2.0;
    assert x - m == h && y - m == -h;
    assert (x - y) * (x - y) == 4.0 * (h * h);
  }

  // ---------------------------------------------------------------------------------------------
  // The loop over the results

  /** The six fields make up a result. */
  lemma FieldsDetermine(a: Result, b: Result)
    requires forall f :: Get(a, f) == Get(b, f)
    ensures a == b
  {
    assert Get(a, InitTime) == Get(b, InitTime) && Get(a, InitRate) == Get(b, InitRate);
    assert Get(a, InitPeriod) == Get(b, InitPeriod) && Get(a, RunTime) == Get(b, RunTime);
    assert Get(a, RunRate) == Get(b, RunRate) && Get(a, RunPeriod) == Get(b, RunPeriod);
  }

  lemma {:induction false} ColumnAt(results: seq<Result>, f: Field, i: nat)
    requires i < |results|
    ensures |Column(results, f)| == |results| && Column(results, f)[i] == Get(results[i], f)
  {
    var n := |results| - 1;
    ColumnLength(results, f);
    ColumnLength(results[..n], f);
    if i < n {
      ColumnAt(results[..n], f, i);
    }
  }

  lemma {:induction false} ColumnLength(results: seq<Result>, f: Field)
    ensures |Column(results, f)| == |results|
  {
    if results == [] {
    } else {
      ColumnLength(results[..|results| - 1], f);
    }
  }

  /** The ACCUMULATE lines of the loop body, one per field. */
  function AccumulateAll(run: Result, average: Result, moment2: Result, count: nat): (Result, Result)
    requires count > 0
  {
    var (it, it2) := Accumulate(run.init.time, average.init.time, moment2.init.time, count);
    var (ir, ir2) := Accumulate(run.init.rate, average.init.rate, moment2.init.rate, count);
    var (ip, ip2) := Accumulate(run.init.period, average.init.period, moment2.init.period, count);
    var (rt, rt2) := Accumulate(run.run.time, average.run.time, moment2.run.time, count);
    var (rr, rr2) := Accumulate(run.run.rate, average.run.rate, moment2.run.rate, count);
    var (rp, rp2) := Accumulate(run.run.period, average.run.period, moment2.run.period, count);
    (Result(PhaseResult(it, ir, ip), PhaseResult(rt, rr, rp)),
     Result(PhaseResult(it2, ir2, ip2), PhaseResult(rt2, rr2, rp2)))
  }

  ghost predicate AllTrack(results: seq<Result>, average: Result, moment2: Result) {
    forall f :: Tracks(Column(results, f), Get(average, f), Get(moment2, f))
  }

  lemma FieldOfAll(run: Result, average: Result, moment2: Result, count: nat, f: Field)
    requires count > 0
    ensures var (average', moment2') := AccumulateAll(run, average, moment2, count);
      (Get(average', f), Get(moment2', f)) == Accumulate(Get(run, f), Get(average, f), Get(moment2, f), count)
  {
  }

  lemma AllTrackStep(results: seq<Result>, run: Result, average: Result, moment2: Result)
    requires AllTrack(results, average, moment2)
    ensures var (average', moment2') := AccumulateAll(run, average, moment2, |results| + 1);
      AllTrack(results + [run], average', moment2')
  {
    var (average', moment2') := AccumulateAll(run, average, moment2, |results| + 1);
    assert (results + [run])[..|results|] == results;
    forall f ensures Tracks(Column(results + [run], f), Get(average', f), Get(moment2', f)) {
      ColumnLength(results, f);
      FieldOfAll(run, average, moment2, |results| + 1, f);
      AccumulateTracks(Column(results, f), Get(run, f), Get(average, f), Get(moment2, f));
    }
  }

  function Divided(r: Result, n: nat): Result
    requires n > 0
  {
    Result(PhaseResult(r.init.time / n as real, r.init.rate / n as real, r.init.period / n as real),
           PhaseResult(r.run.time / n as real, r.run.rate / n as real, r.run.period / n as real))
  }

  predicate Summarizes(xs: seq<real>, average: real, variance: real) {
    xs != [] && average == Mean(xs) && variance == Variance(xs)
  }

  lemma AllTrackSummarizes(results: seq<Result>, average: Result, moment2: Result, f: Field)
    requires results != [] && AllTrack(results, average, moment2)
    ensures Summarizes(Column(results, f), Get(average, f), Get(Divided(moment2, |results|), f))
  {
    ColumnLength(results, f);
    TracksIsTwoPass(Column(results, f), Get(average, f), Get(moment2, f));
  }

  /** The average line and the squares of the stdev line; nothing for fewer than two results. */
  method Log(results: seq<Result>) returns (o: Option<(Result, Result)>)
    ensures o == None <==> |results| < 2
    ensures o.Some? ==> forall f :: Summarizes(Column(results, f), Get(o.value.0, f), Get(o.value.1, f))
  {
    if |results| < 2 {
      return None;
    }
    var n := 0;
    var average := results[0];
    var moment2 := Result(PhaseResult(0.0, 0.0, 0.0), PhaseResult(0.0, 0.0, 0.0));
    while n < |results|
      invariant n <= |results|
      invariant AllTrack(results[..n], average, moment2)
    {
      var run, count := results[n], n + 1;
      AllTrackStep(results[..n], run, average, moment2);
      assert results[..n + 1] == results[..n] + [run];
      var (average', moment2') := AccumulateAll(run, average, moment2, count);
      average, moment2 := average', moment2';
      n := n + 1;
    }
    assert results[..n] == results;
    forall f ensures Summarizes(Column(results, f), Get(average, f), Get(Divided(moment2, n), f)) {
      AllTrackSummarizes(results, average, moment2, f);
    }
    o := Some((average, Divided(moment2, n)));
  }
}
