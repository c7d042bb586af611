/** The byte counters and the fairness index of examples/tcp/dctcp-example.cc.

    The program computes Jain's index from 64-bit sums that wrap around.  Against it stands the exact
    index over unbounded numbers. */
module Fairness {

  const TWO_64: nat := 0x1_0000_0000_0000_0000

  function Wrap(n: nat): nat {
    n % TWO_64
  }

  // ---------------------------------------------------------------------------------------------
  // Exact sums and the exact index

  function Sum(xs: seq<nat>): nat {
    if xs == [] then 0 else Sum(xs[..|xs| - 1]) + xs[|xs| - 1]
  }

  function Square(x: int): nat {
    x * x
  }

  function SumSquares(xs: seq<nat>): nat {
    if xs == [] then 0 else SumSquares(xs[..|xs| - 1]) + Square(xs[|xs| - 1])
  }

  function SquaredDeviations(xs: seq<nat>, c: int): nat {
    if xs == [] then 0 else SquaredDeviations(xs[..|xs| - 1], c) + Square(xs[|xs| - 1] - c)
  }

  predicate AllEqual(xs: seq<nat>) {
    forall i, j :: 0 <= i < |xs| && 0 <= j < |xs| ==> xs[i] == xs[j]
  }

  predicate AllZero(xs: seq<nat>) {
    forall i :: 0 <= i < |xs| ==> xs[i] == 0
  }

  /** At most one counter is not zero. */
  predicate OneTakesAll(xs: seq<nat>) {
    forall i, j :: 0 <= i < j < |xs| ==> xs[i] == 0 || xs[j] == 0
  }

  lemma SquareSign(d: int, square: int)
    requires square == d * d
    ensures square >= 0 && (square == 0 <==> d == 0)
    ensures d >= 0 ==> square >= d
  {
  }

  lemma {:induction false} SumSquaresSign(xs: seq<nat>)
    ensures SumSquares(xs) >= Sum(xs)
    ensures SumSquares(xs) == 0 <==> AllZero(xs)
    ensures Sum(xs) == 0 <==> AllZero(xs)
  {
    if xs == [] {
    } else {
      var n := |xs| - 1;
      SumSquaresSign(xs[..n]);
      SquareSign(xs[n], Square(xs[n]));
      assert forall i :: 0 <= i < n ==> xs[..n][i] == xs[i];
    }
  }

  lemma {:induction false} DeviationsSign(xs: seq<nat>, c: int)
    ensures SquaredDeviations(xs, c) == 0 <==> forall i :: 0 <= i < |xs| ==> xs[i] == c
  {
    if xs == [] {
    } else {
      var n := |xs| - 1;
      DeviationsSign(xs[..n], c);
      SquareSign(xs[n] - c, Square(xs[n] - c));
      assert forall i :: 0 <= i < n ==> xs[..n][i] == xs[i];
    }
  }

  lemma SquareOfDifference(x: int, c: int)
    ensures Square(x - c) == Square(x) - 2 * (c * x) + c * c
  {
  }

  function Cross(xs: seq<nat>, c: int): int {
    if xs == [] then 0 else Cross(xs[..|xs| - 1], c) + c * xs[|xs| - 1]
  }

  function Repeated(n: nat, v: int): int {
    if n == 0 then 0 else Repeated(n - 1, v) + v
  }

  lemma {:induction false} RepeatedIsProduct(n: nat, v: int)
    ensures Repeated(n, v) == n * v
  {
    if n == 0 {
    } else {
      RepeatedIsProduct(n - 1, v);
      Distribute(v, n - 1, 1);
    }
  }

  lemma {:induction false} CrossIsProduct(xs: seq<nat>, c: int)
    ensures Cross(xs, c) == c * Sum(xs)
  {
    if xs == [] {
    } else {
      CrossIsProduct(xs[..|xs| - 1], c);
      Distribute(c, Sum(xs[..|xs| - 1]), xs[|xs| - 1]);
    }
  }

  lemma {:induction false} DeviationsByTerm(xs: seq<nat>, c: int)
    ensures SquaredDeviations(xs, c) == SumSquares(xs) - 2 * Cross(xs, c) + Repeated(|xs|, c * c)
  {
    if xs == [] {
    } else {
      DeviationsByTerm(xs[..|xs| - 1], c);
      SquareOfDifference(xs[|xs| - 1], c);
    }
  }

  lemma DeviationsClosedForm(xs: seq<nat>, c: int)
    ensures SquaredDeviations(xs, c) == SumSquares(xs) - 2 * (c * Sum(xs)) + |xs| * (c * c)
  {
    DeviationsByTerm(xs, c);
    CrossIsProduct(xs, c);
    RepeatedIsProduct(|xs|, c * c);
  }

  lemma Distribute(c: int, a: int, b: int)
    ensures c * (a + b) == c * a + c * b
  {
  }

  /** Adding one flow: the slack of Cauchy-Schwarz grows by the squared deviations from it. */
  lemma SlackStep(n: int, q: int, s: int, x: int)
    ensures (n + 1) * (q + Square(x)) - Square(s + x)
         == (n * q - Square(s)) + (q - 2 * (x * s) + n * (x * x))
  {
    assert Square(s + x) == Square(s) + 2 * (x * s) + Square(x);
    assert (n + 1) * (q + Square(x)) == n * q + q + n * Square(x) + Square(x);
  }

  /** Cauchy-Schwarz with its equality case. */
  lemma {:induction false} CauchySchwarz(xs: seq<nat>)
    ensures Square(Sum(xs)) <= |xs| * SumSquares(xs)
    ensures Square(Sum(xs)) == |xs| * SumSquares(xs) <==> AllEqual(xs)
  {
    if xs == [] {
    } else {
      var n, x := |xs| - 1, xs[|xs| - 1];
      var init := xs[..n];
      CauchySchwarz(init);
      SlackStep(n, SumSquares(init), Sum(init), x);
      DeviationsClosedForm(init, x);
      DeviationsSign(init, x);
      EqualSnoc(xs);
    }
  }

  lemma EqualSnoc(xs: seq<nat>)
    requires xs != []
    ensures var init, last := xs[..|xs| - 1], xs[|xs| - 1];
      AllEqual(xs) <==> AllEqual(init) && forall i :: 0 <= i < |init| ==> init[i] == last
  {
    var n := |xs| - 1;
    assert forall i :: 0 <= i < n ==> xs[..n][i] == xs[i];
  }

  /** The square of the sum is at least the sum of the squares, with equality when at most one flow
      received anything. */
  lemma {:induction false} SquareOfSum(xs: seq<nat>)
    ensures SumSquares(xs) <= Square(Sum(xs))
    ensures SumSquares(xs) == Square(Sum(xs)) <==> OneTakesAll(xs)
  {
    if xs == [] {
    } else {
      var n, x := |xs| - 1, xs[|xs| - 1];
      var init := xs[..n];
      SquareOfSum(init);
      SumSquaresSign(init);
      SquareOfTotal(Sum(init), x, x * Sum(init));
      ProductSign(x, Sum(init), x * Sum(init));
      assert forall i :: 0 <= i < n ==> init[i] == xs[i];
    }
  }

  lemma SquareOfTotal(s: nat, x: nat, cross: int)
    requires cross == x * s
    ensures Square(s + x) == Square(s) + 2 * cross + Square(x)
  {
  }

  lemma ProductSign(a: nat, b: nat, product: int)
    requires product == a * b
    ensures product >= 0 && (product == 0 <==> a == 0 || b == 0)
  {
  }

  /** Jain's index. */
  function Index(xs: seq<nat>): real
    requires |xs| * SumSquares(xs) > 0
  {
    Square(Sum(xs)) as real / (|xs| * SumSquares(xs)) as real
  }

  lemma RatioBounds(a: int, q: int, n: int, b: int)
    requires n > 0 && q > 0 && b == n * q && q <= a <= b
    ensures b > 0 && 1.0 / n as real <= a as real / b as real <= 1.0
    ensures a as real / b as real == 1.0 <==> a == b
    ensures a as real / b as real == 1.0 / n as real <==> a == q
  {
    var r := a as real / b as real;
    assert r * b as real == a as real;
    assert q as real / b as real == 1.0 / n as real;
    assert q as real / b as real <= r;
    if r == 1.0 / n as real {
      assert r * b as real == q as real;
    }
  }

  lemma NotAllZero(xs: seq<nat>)
    requires !AllZero(xs)
    ensures |xs| > 0 && SumSquares(xs) > 0 && |xs| * SumSquares(xs) > 0
  {
    SumSquaresSign(xs);
    ProductSign(|xs|, SumSquares(xs), |xs| * SumSquares(xs));
  }

  /** The index lies between 1/n and 1.  It is 1 exactly for equal flows and 1/n exactly when one flow
      takes everything. */
  lemma {:induction false} IndexBounds(xs: seq<nat>)
    requires !AllZero(xs)
    ensures |xs| * SumSquares(xs) > 0
    ensures 1.0 / |xs| as real <= Index(xs) <= 1.0
    ensures Index(xs) == 1.0 <==> AllEqual(xs)
    ensures Index(xs) == 1.0 / |xs| as real <==> OneTakesAll(xs)
  {
    NotAllZero(xs);
    CauchySchwarz(xs);
    SquareOfSum(xs);
    RatioBounds(Square(Sum(xs)), SumSquares(xs), |xs|, |xs| * SumSquares(xs));
  }

  // ---------------------------------------------------------------------------------------------
  // 64-bit arithmetic

  lemma WrapShift(x: nat, y: nat, k: int)
    requires x == y + TWO_64 * k
    ensures Wrap(x) == Wrap(y)
  {
  }

  lemma WrapSum(a: nat, b: nat)
    ensures Wrap(Wrap(a) + b) == Wrap(a + b) && Wrap(Wrap(a) + Wrap(b)) == Wrap(a + b)
  {
    var qa, qb := a / TWO_64, b / TWO_64;
    assert a == TWO_64 * qa + Wrap(a) && b == TWO_64 * qb + Wrap(b);
    WrapShift(a + b, Wrap(a) + b, qa);
    WrapShift(a + b, Wrap(a) + Wrap(b), qa + qb);
  }

  lemma WrapProduct(a: nat, b: nat)
    ensures Wrap(Wrap(a) * Wrap(b)) == Wrap(a * b)
  {
    var qa, qb := a / TWO_64, b / TWO_64;
    assert a == TWO_64 * qa + Wrap(a) && b == TWO_64 * qb + Wrap(b);
    ProductExpand(qa, Wrap(a), qb, Wrap(b));
    WrapShift(a * b, Wrap(a) * Wrap(b), qa * (TWO_64 * qb + Wrap(b)) + Wrap(a) * qb);
  }

  lemma ProductExpand(qa: nat, ra: nat, qb: nat, rb: nat)
    ensures (TWO_64 * qa + ra) * (TWO_64 * qb + rb) == ra * rb + TWO_64 * (qa * (TWO_64 * qb + rb) + ra * qb)
  {
    assert (TWO_64 * qa + ra) * (TWO_64 * qb + rb) == TWO_64 * qa * (TWO_64 * qb + rb) + ra * (TWO_64 * qb + rb);
    assert ra * (TWO_64 * qb + rb) == ra * (TWO_64 * qb) + ra * rb;
    assert ra * (TWO_64 * qb) == TWO_64 * (ra * qb);
  }

  /** A quotient of two machine numbers as a floating-point division gives it. */
  datatype Quotient = Finite(value: real) | Infinite | NotANumber

  function Divide(a: nat, b: nat): Quotient {
    if b > 0 then Finite(a as real / b as real) else if a > 0 then Infinite else NotANumber
  }

  /** All four intermediate results of the program fit 64 bits. */
  predicate NothingWraps(xs: seq<nat>) {
    Sum(xs) < TWO_64 && SumSquares(xs) < TWO_64 && Square(Sum(xs)) < TWO_64 && |xs| * SumSquares(xs) < TWO_64
  }

  /** The last product is the greatest of the four, so it alone decides. */
  lemma NothingWrapsIff(xs: seq<nat>)
    requires xs != []
    ensures NothingWraps(xs) <==> |xs| * SumSquares(xs) < TWO_64
  {
    SumSquaresSign(xs);
    CauchySchwarz(xs);
    SquareSign(Sum(xs), Square(Sum(xs)));
    AtLeastFactor(|xs|, SumSquares(xs), |xs| * SumSquares(xs));
  }

  lemma AtLeastFactor(n: int, q: int, product: int)
    requires n >= 1 && q >= 0 && product == n * q
    ensures product >= q
  {
  }

  lemma {:induction false} SumSquaresBound(xs: seq<nat>, bound: nat)
    requires forall i :: 0 <= i < |xs| ==> xs[i] <= bound
    ensures SumSquares(xs) <= |xs| * Square(bound)
  {
    if xs == [] {
    } else {
      var n := |xs| - 1;
      SumSquaresBound(xs[..n], bound);
      SquareMonotone(xs[n], bound);
      Distribute(Square(bound), n, 1);
    }
  }

  lemma SquareMonotone(x: nat, bound: nat)
    requires x <= bound
    ensures Square(x) <= Square(bound)
  {
    assert x * x <= x * bound <= bound * bound;
  }

  /** Counters up to `bound` are safe whenever (n * bound)^2 fits 64 bits. */
  lemma BoundedCountersDoNotWrap(xs: seq<nat>, bound: nat)
    requires xs != [] && Square(|xs| * bound) < TWO_64
    requires forall i :: 0 <= i < |xs| ==> xs[i] <= bound
    ensures NothingWraps(xs)
  {
    var n := |xs|;
    SumSquaresBound(xs, bound);
    ScaleBound(n, SumSquares(xs), Square(bound));
    assert n * (n * Square(bound)) == Square(n * bound);
    NothingWrapsIff(xs);
  }

  lemma ScaleBound(n: int, q: int, b: int)
    requires n >= 0 && q <= n * b
    ensures n * q <= n * (n * b)
  {
  }

  /** For the three groups of the program: 214748364 bytes for 20 flows, 429496729 for 10. */
  lemma ProgramBounds(xs: seq<nat>)
    requires |xs| == 20 ==> forall i :: 0 <= i < |xs| ==> xs[i] <= 214748364
    requires |xs| == 10 ==> forall i :: 0 <= i < |xs| ==> xs[i] <= 429496729
    requires |xs| == 10 || |xs| == 20
    ensures NothingWraps(xs)
  {
    BoundedCountersDoNotWrap(xs, if |xs| == 20 then 214748364 else 429496729);
  }

  // ---------------------------------------------------------------------------------------------
  // The program

  /** The quotient the program prints for one group of flows. */
  function Printed(xs: seq<nat>): Quotient {
    Divide(Wrap(Square(Sum(xs))), Wrap(|xs| * SumSquares(xs)))
  }

  /** Without a wrap the printed quotient is the index; it is no number exactly when nothing was
      received. */
  lemma {:induction false} PrintedIsIndex(xs: seq<nat>)
    requires xs != [] && |xs| * SumSquares(xs) < TWO_64
    ensures AllZero(xs) ==> Printed(xs) == NotANumber
    ensures !AllZero(xs) ==> |xs| * SumSquares(xs) > 0 && Printed(xs) == Finite(Index(xs))
  {
    NothingWrapsIff(xs);
    SumSquaresSign(xs);
    WrapFits(Square(Sum(xs)));
    WrapFits(|xs| * SumSquares(xs));
    if !AllZero(xs) {
      NotAllZero(xs);
    } else {
      SquareSign(Sum(xs), Square(Sum(xs)));
      ProductSign(|xs|, SumSquares(xs), |xs| * SumSquares(xs));
    }
  }

  /** Whether the wrapped quotient is the exact one is a comparison of what the wraps took off. */
  lemma WrappedRatio(n: nat, d: nat)
    requires Wrap(d) > 0
    ensures Wrap(n) as real / Wrap(d) as real == n as real / d as real
       <==> (n / TWO_64) * d == n * (d / TWO_64)
  {
    var qn, qd := n / TWO_64, d / TWO_64;
    assert n == TWO_64 * qn + Wrap(n) && d == TWO_64 * qd + Wrap(d);
    SameRatio(Wrap(n), Wrap(d), n, d, Wrap(n) * d, n * Wrap(d));
    CrossDifference(n, d, qn, qd, Wrap(n), Wrap(d));
  }

  lemma SameRatio(a: nat, b: nat, n: nat, d: nat, ad: int, nb: int)
    requires b > 0 && d > 0 && ad == a * d && nb == n * b
    ensures a as real / b as real == n as real / d as real <==> ad == nb
  {
    var r, r' := a as real / b as real, n as real / d as real;
    assert r * b as real == a as real && r' * d as real == n as real;
    assert ad as real == a as real * d as real && nb as real == n as real * b as real;
    RatioCross(r, b as real, r', d as real, a as real * d as real, n as real * b as real);
  }

  lemma RatioCross(r: real, b: real, r': real, d: real, ad: real, nb: real)
    requires b > 0.0 && d > 0.0 && ad == (r * b) * d && nb == (r' * d) * b
    ensures r == r' <==> ad == nb
  {
    assert ad - nb == (r - r') * (b * d);
    assert b * d > 0.0;
  }

  lemma CrossDifference(n: nat, d: nat, qn: nat, qd: nat, wn: nat, wd: nat)
    requires n == TWO_64 * qn + wn && d == TWO_64 * qd + wd
    ensures wn * d - n * wd == TWO_64 * (n * qd - qn * d)
  {
    assert wn == n - TWO_64 * qn && wd == d - TWO_64 * qd;
    assert (n - TWO_64 * qn) * d == n * d - TWO_64 * (qn * d);
    assert n * (d - TWO_64 * qd) == n * d - TWO_64 * (n * qd);
  }

  /** For every list of counters: the printed value is the index if and only if the divisor does not
      wrap to zero and both wraps take off the same share. */
  lemma {:induction false} PrintedIsIndexIff(xs: seq<nat>)
    requires !AllZero(xs)
    ensures |xs| * SumSquares(xs) > 0
    ensures var n, d := Square(Sum(xs)), |xs| * SumSquares(xs);
      Printed(xs) == Finite(Index(xs)) <==> Wrap(d) > 0 && (n / TWO_64) * d == n * (d / TWO_64)
  {
    NotAllZero(xs);
    SquareSign(Sum(xs), Square(Sum(xs)));
    if Wrap(|xs| * SumSquares(xs)) > 0 {
      WrappedRatio(Square(Sum(xs)), |xs| * SumSquares(xs));
    }
  }

  lemma DivideKinds(n: nat, d: nat)
    ensures Divide(n, d).Finite? <==> d > 0
    ensures Divide(n, d).Finite? ==> Divide(n, d).value * d as real == n as real
    ensures Divide(n, d) == Infinite <==> d == 0 && n > 0
    ensures Divide(n, d) == NotANumber <==> d == 0 && n == 0
  {
    if d > 0 {
      RealQuotient(n as real, d as real);
    }
  }

  lemma RealQuotient(n: real, d: real)
    requires d > 0.0
    ensures n / d * d == n
  {
  }

  /** What is printed, in 64-bit terms: a quotient of what the two products leave modulo 2^64, infinite or
      no number when the divisor leaves nothing. */
  lemma PrintedKinds(xs: seq<nat>, n: nat, d: nat)
    requires n == Square(Sum(xs)) % 0x1_0000_0000_0000_0000
    requires d == (|xs| * SumSquares(xs)) % 0x1_0000_0000_0000_0000
    ensures Printed(xs).Finite? <==> d > 0
    ensures Printed(xs).Finite? ==> Printed(xs).value * d as real == n as real
    ensures Printed(xs) == Infinite <==> d == 0 && n > 0
    ensures Printed(xs) == NotANumber <==> d == 0 && n == 0
  {
    assert Printed(xs) == Divide(n, d);
    DivideKinds(n, d);
  }

  lemma WrapFits(x: nat)
    requires x < TWO_64
    ensures Wrap(x) == x
  {
  }

  lemma {:induction false} Zeros(n: nat)
    ensures Sum(seq(n, _ => 0)) == 0 && SumSquares(seq(n, _ => 0)) == 0
  {
    if n == 0 {
    } else {
      Zeros(n - 1);
      assert seq(n, _ => 0)[..n - 1] == seq(n - 1, _ => 0);
    }
  }

  /** One flow of 2^32 bytes beside idle ones: both products wrap to zero and no index is printed,
      although the exact index is 1/n. */
  lemma LargeCounterLosesIndex(idle: nat)
    ensures var xs := seq(idle, _ => 0) + [0x1_0000_0000];
      Printed(xs) == NotANumber && !AllZero(xs) && OneTakesAll(xs)
  {
    var zeros: seq<nat> := seq(idle, _ => 0);
    var xs := zeros + [0x1_0000_0000];
    Zeros(idle);
    assert xs[..idle] == zeros;
    assert Sum(xs) == 0x1_0000_0000 && SumSquares(xs) == TWO_64;
    assert Square(Sum(xs)) == TWO_64;
    WrapShift(|xs| * TWO_64, 0, |xs|);
    assert xs[idle] != 0;
  }

  lemma RunningSums(xs: seq<nat>, i: nat, sum: nat, sumSquares: nat, x: nat)
    requires i < |xs| && x == xs[i]
    requires sum == Wrap(Sum(xs[..i])) && sumSquares == Wrap(SumSquares(xs[..i]))
    ensures Wrap(sum + x) == Wrap(Sum(xs[..i + 1]))
    ensures Wrap(sumSquares + Wrap(x * x)) == Wrap(SumSquares(xs[..i + 1]))
  {
    assert xs[..i + 1][..i] == xs[..i];
    WrapSum(Sum(xs[..i]), xs[i]);
    WrapSum(SumSquares(xs[..i]), Square(xs[i]));
  }

  lemma PrintedFromSums(xs: seq<nat>)
    ensures Divide(Wrap(Wrap(Sum(xs)) * Wrap(Sum(xs))), Wrap(|xs| * Wrap(SumSquares(xs)))) == Printed(xs)
  {
    WrapProduct(Sum(xs), Sum(xs));
    WrapScale(|xs|, SumSquares(xs));
  }

  class Counters {
    const s1r1: array<nat>
    const s2r2: array<nat>
    const s3r1: array<nat>

    ghost predicate Valid() {
      && s1r1.Length == 10 && s2r2.Length == 20 && s3r1.Length == 10
      && s1r1 != s2r2 && s1r1 != s3r1 && s2r2 != s3r1
    }

    constructor ()
      ensures Valid() && fresh(s1r1) && fresh(s2r2) && fresh(s3r1)
    {
      s1r1, s2r2, s3r1 := new nat[10], new nat[20], new nat[10];
    }

    /** The three trace sinks differ only in the vector they update. */
    method TraceSink(bytes: array<nat>, index: nat, size: nat)
      requires bytes == s1r1 || bytes == s2r2 || bytes == s3r1
      requires index < bytes.Length
      modifies bytes
      ensures bytes[..] == old(bytes[..])[index := (old(bytes[index]) + size) % 0x1_0000_0000_0000_0000]
    {
      bytes[index] := Wrap(bytes[index] + size);
    }

    method InitializeCounters()
      requires Valid()
      modifies s1r1, s2r2, s3r1
      ensures AllZero(s1r1[..]) && AllZero(s2r2[..]) && AllZero(s3r1[..])
    {
      for i := 0 to 10
        invariant forall k :: 0 <= k < i ==> s1r1[k] == 0
      {
        s1r1[i] := 0;
      }
      for i := 0 to 20
        invariant forall k :: 0 <= k < 10 ==> s1r1[k] == 0
        invariant forall k :: 0 <= k < i ==> s2r2[k] == 0
      {
        s2r2[i] := 0;
      }
      for i := 0 to 10
        invariant forall k :: 0 <= k < 10 ==> s1r1[k] == 0
        invariant forall k :: 0 <= k < 20 ==> s2r2[k] == 0
        invariant forall k :: 0 <= k < i ==> s3r1[k] == 0
      {
        s3r1[i] := 0;
      }
    }

    /** One group: two running 64-bit sums and the quotient of two 64-bit products. */
    method FairnessOf(bytes: array<nat>) returns (fairness: Quotient)
      ensures fairness == Printed(bytes[..])
    {
      var sum, sumSquares, n := 0, 0, bytes.Length;
      ghost var xs := bytes[..];
      for i := 0 to n
        invariant sum == Wrap(Sum(xs[..i])) && sumSquares == Wrap(SumSquares(xs[..i]))
      {
        RunningSums(xs, i, sum, sumSquares, bytes[i]);
        sum := Wrap(sum + bytes[i]);
        sumSquares := Wrap(sumSquares + Wrap(bytes[i] * bytes[i]));
      }
      assert xs[..n] == xs;
      PrintedFromSums(xs);
      fairness := Divide(Wrap(sum * sum), Wrap(n * sumSquares));
    }

    method PrintFairness() returns (f1: Quotient, f2: Quotient, f3: Quotient)
      requires Valid()
      ensures f1 == Printed(s1r1[..]) && f2 == Printed(s2r2[..]) && f3 == Printed(s3r1[..])
    {
      f1 := FairnessOf(s1r1);
      f2 := FairnessOf(s2r2);
      f3 := FairnessOf(s3r1);
    }
  }

  lemma WrapScale(n: nat, q: nat)
    ensures Wrap(n * Wrap(q)) == Wrap(n * q)
  {
    var k := q / TWO_64;
    assert q == TWO_64 * k + Wrap(q);
    assert n * q == n * Wrap(q) + TWO_64 * (n * k);
    WrapShift(n * q, n * Wrap(q), n * k);
  }
}
