/** The composite Newton–Cotes rules as one weighted rule: sample f at the
    n + 1 points of a uniform partition of [a, b], weight each sample, add,
    and scale by a rule-specific factor times the step h. Each rule is a
    configuration of this routine: a guard on n, a factor and a weight
    function w(i, n) for sample i of n. This is the reference the rules of
    the program are proved equal to. */
module NewtonCotes {
  import opened Errors

  /** A weight for sample i of a partition into n segments. */
  type WeightFn = (int, int) -> real

  datatype RuleKind = Trapezoidal | Simpson13 | Simpson38
  {
    /** The rule's divisibility guard on the segment count. */
    predicate Admits(n: int)
    {
      match this
      case Trapezoidal => true
      case Simpson13 => n % 2 == 0
      case Simpson38 => n % 3 == 0
    }

    /** The factor in front of h: 1/2, 1/3 and 3/8. */
    function Factor(): real
    {
      match this
      case Trapezoidal => 1.0 / 2.0
      case Simpson13 => 1.0 / 3.0
      case Simpson38 => 3.0 / 8.0
    }

    /** The weight of sample i among samples 0..n: 1 at both ends; inside,
        2 for the trapezoid, 4 at odd and 2 at even indices for Simpson 1/3,
        2 at multiples of 3 and 3 elsewhere for Simpson 3/8. */
    function Weight(i: int, n: int): real
    {
      if i == 0 || i == n then 1.0
      else match this
        case Trapezoidal => 2.0
        case Simpson13 => if i % 2 == 1 then 4.0 else 2.0
        case Simpson38 => if i % 3 == 0 then 2.0 else 3.0
    }

    /** Weight as a function value, the parameter of the generic sums. */
    function Weights(): WeightFn
    {
      (i, n) => Weight(i, n)
    }
  }

  /** The step size h = (b - a) / n. */
  function Step(a: real, b: real, n: int): real
    requires n != 0
  {
    (b - a) / n as real
  }

  /** The partition point x_i = a + i*h. */
  function Point(a: real, b: real, n: int, i: int): real
    requires n != 0
  {
    a + (i as real) * Step(a, b, n)
  }

  /** The samples y_i = f(x_i) for i = 0..n. */
  function Samples(f: real -> real, a: real, b: real, n: nat): seq<real>
    requires n >= 1
  {
    seq(n + 1, i requires 0 <= i <= n => f(Point(a, b, n, i)))
  }

  /** The weighted sum of y[lo..hi], with the weights of a partition into |y| - 1 segments. */
  function RangeSum(w: WeightFn, y: seq<real>, lo: nat, hi: nat): real
    requires lo <= hi <= |y|
    decreases hi - lo
  {
    if lo == hi then 0.0 else w(lo, |y| - 1) * y[lo] + RangeSum(w, y, lo + 1, hi)
  }

  /** The sum of the weights of indices lo..hi-1 in a partition into n segments. */
  function WeightTotal(w: WeightFn, n: int, lo: nat, hi: nat): real
    requires lo <= hi
    decreases hi - lo
  {
    if lo == hi then 0.0 else w(lo, n) + WeightTotal(w, n, lo + 1, hi)
  }

  /** The generic rule, with the same failures in the same order as the
      program: the guard, then h with n == 0, then np.linspace with a
      negative count, then y[0] on the empty array that n == -1 gives. */
  function Rule(kind: RuleKind, f: real -> real, a: real, b: real, n: int): (r: Result<real>)
    ensures r.Success? <==> kind.Admits(n) && n >= 1
  {
    if !kind.Admits(n) then Failure(InvalidSegmentCount)
    else if n == 0 then Failure(ZeroDivision)
    else if n == -1 then Failure(IndexOutOfRange)
    else if n < -1 then Failure(InvalidSampleCount)
    else Success(kind.Factor() * Step(a, b, n) * RangeSum(kind.Weights(), Samples(f, a, b, n), 0, n + 1))
  }

  /** The partition has n + 1 points, uniformly spaced by h, from a to b inclusive. */
  lemma PartitionShape(a: real, b: real, n: nat)
    requires n >= 1
    ensures Point(a, b, n, 0) == a
    ensures Point(a, b, n, n) == b
    ensures forall i :: 0 <= i < n ==> Point(a, b, n, i + 1) - Point(a, b, n, i) == Step(a, b, n)
  {
  }

  /** Adding the next sample at the top end: the order the 3/8 loop accumulates in. */
  lemma {:induction false} RangeSumSnoc(w: WeightFn, y: seq<real>, lo: nat, hi: nat)
    requires lo <= hi < |y|
    ensures RangeSum(w, y, lo, hi + 1) == RangeSum(w, y, lo, hi) + w(hi, |y| - 1) * y[hi]
    decreases hi - lo
  {
    if lo < hi {
      RangeSumSnoc(w, y, lo + 1, hi);
    }
  }

  /** Adding the next weight at the top end. */
  lemma {:induction false} WeightTotalSnoc(w: WeightFn, n: int, lo: nat, hi: nat)
    requires lo <= hi
    ensures WeightTotal(w, n, lo, hi + 1) == WeightTotal(w, n, lo, hi) + w(hi, n)
    decreases hi - lo
  {
    if lo < hi {
      WeightTotalSnoc(w, n, lo + 1, hi);
    }
  }

  /** With both end weights 1, the full weighted sum is y_0 + (interior weighted sum) + y_n. */
  lemma EndpointSplit(w: WeightFn, y: seq<real>)
    requires |y| >= 2
    requires w(0, |y| - 1) == 1.0 && w(|y| - 1, |y| - 1) == 1.0
    ensures RangeSum(w, y, 0, |y|) == y[0] + RangeSum(w, y, 1, |y| - 1) + y[|y| - 1]
  {
    RangeSumSnoc(w, y, 1, |y| - 1);
  }

  /** When every sample is c, the weighted sum is c times the sum of the weights. */
  lemma {:induction false} ConstantRangeSum(w: WeightFn, y: seq<real>, c: real, lo: nat, hi: nat)
    requires lo <= hi <= |y|
    requires forall i :: 0 <= i < |y| ==> y[i] == c
    ensures RangeSum(w, y, lo, hi) == c * WeightTotal(w, |y| - 1, lo, hi)
    decreases hi - lo
  {
    if lo < hi {
      ConstantRangeSum(w, y, c, lo + 1, hi);
    }
  }

  /** Samples that lie the same offset c above others have a weighted sum
      c times the total weight above theirs. */
  lemma {:induction false} ShiftedRangeSum(w: WeightFn, y: seq<real>, z: seq<real>, c: real, lo: nat, hi: nat)
    requires |y| == |z| && lo <= hi <= |y|
    requires forall i :: 0 <= i < |y| ==> y[i] == z[i] + c
    ensures RangeSum(w, y, lo, hi) == RangeSum(w, z, lo, hi) + c * WeightTotal(w, |y| - 1, lo, hi)
    decreases hi - lo
  {
    if lo < hi {
      ShiftedRangeSum(w, y, z, c, lo + 1, hi);
    }
  }

  /** With symmetric weights, samples that cancel in mirrored pairs,
      z_i + z_{n-i} = 0, have weighted sum 0 over the indices lo..n-lo. */
  lemma {:induction false} MirroredRangeSum(w: WeightFn, z: seq<real>, n: nat, lo: nat, hi: nat)
    requires n == |z| - 1 && lo <= hi && lo + hi == n + 1
    requires forall i, j :: 0 <= i <= n && 0 <= j <= n && i + j == n ==> w(i, n) == w(j, n)
    requires forall i, j :: 0 <= i <= n && 0 <= j <= n && i + j == n ==> z[i] + z[j] == 0.0
    ensures RangeSum(w, z, lo, hi) == 0.0
    decreases hi - lo
  {
    if hi - lo == 1 {
      assert z[lo] + z[lo] == 0.0;
    } else if hi - lo >= 2 {
      assert w(lo, n) == w(hi - 1, n) && z[lo] + z[hi - 1] == 0.0;
      MirroredRangeSum(w, z, n, lo + 1, hi - 1);
      RangeSumSnoc(w, z, lo + 1, hi - 1);
    }
  }

  /** Interior trapezoid weights: 2 for each of the indices lo..n-1. */
  lemma {:induction false} TrapezoidalInteriorTotal(n: nat, lo: nat)
    requires 1 <= lo <= n
    ensures WeightTotal(Trapezoidal.Weights(), n, lo, n) == 2.0 * (n - lo) as real
    decreases n - lo
  {
    if lo < n {
      TrapezoidalInteriorTotal(n, lo + 1);
    }
  }

  /** Interior Simpson 1/3 weights from an odd index k: 4, 2, 4, ..., 2, 4. */
  lemma {:induction false} Simpson13InteriorTotal(n: nat, k: nat)
    requires n % 2 == 0 && k % 2 == 1 && 1 <= k < n
    ensures WeightTotal(Simpson13.Weights(), n, k, n) == 3.0 * (n - k) as real + 1.0
    decreases n - k
  {
    var w := Simpson13.Weights();
    if k + 1 < n {
      Simpson13InteriorTotal(n, k + 2);
      assert WeightTotal(w, n, k, n) == 4.0 + (2.0 + WeightTotal(w, n, k + 2, n));
    }
  }

  /** Interior Simpson 3/8 weights over the last m groups of three: 3, 3, 2, ..., 3, 3. */
  lemma {:induction false} Simpson38InteriorTotal(n: nat, m: nat)
    requires n % 3 == 0 && 1 <= m && 3 * m <= n
    ensures WeightTotal(Simpson38.Weights(), n, n - 3 * m + 1, n) == 8.0 * m as real - 2.0
    decreases m
  {
    var w := Simpson38.Weights();
    var k := n - 3 * m + 1;
    assert k % 3 == 1 && (k + 1) % 3 == 2 && k + 1 < n;
    assert WeightTotal(w, n, k, n) == 3.0 + WeightTotal(w, n, k + 1, n);
    assert WeightTotal(w, n, k + 1, n) == 3.0 + WeightTotal(w, n, k + 2, n);
    if m > 1 {
      Simpson38InteriorTotal(n, m - 1);
      assert (k + 2) % 3 == 0;
      assert WeightTotal(w, n, k + 2, n) == 2.0 + WeightTotal(w, n, k + 3, n);
    }
  }

  /** The weights of an admitted partition cancel the rule's factor:
      they sum to 2n, 3n and 8n/3, and the factor times that sum is n. */
  lemma WeightsCancelFactor(kind: RuleKind, n: nat)
    requires n >= 1 && kind.Admits(n)
    ensures kind.Factor() * WeightTotal(kind.Weights(), n, 0, n + 1) == n as real
  {
    var w := kind.Weights();
    assert WeightTotal(w, n, 0, n + 1) == 1.0 + WeightTotal(w, n, 1, n + 1);
    WeightTotalSnoc(w, n, 1, n);
    match kind
    case Trapezoidal =>
      TrapezoidalInteriorTotal(n, 1);
    case Simpson13 =>
      Simpson13InteriorTotal(n, 1);
    case Simpson38 =>
      Simpson38InteriorTotal(n, n / 3);
  }

  /** On an admitted partition the weights are symmetric: sample i and sample n - i weigh the same. */
  lemma SymmetricWeights(kind: RuleKind, n: nat)
    requires kind.Admits(n)
    ensures forall i, j :: 0 <= i <= n && 0 <= j <= n && i + j == n ==> kind.Weights()(i, n) == kind.Weights()(j, n)
  {
  }

  /** The arithmetic that closes the exactness proofs: a factor that turns
      the total weight into n, times h, times a sum that is m times that
      total, is m*(b - a) when n*h = b - a. */
  lemma PartitionScale(factor: real, h: real, sum: real, m: real, total: real, n: nat, width: real)
    requires sum == m * total && factor * total == n as real && h * (n as real) == width
    ensures factor * h * sum == width * m
  {
  }

  /** When the weighted sum of the samples is m times the total weight,
      the rule returns m*(b - a): the weights cancel the factor, and n*h = b - a. */
  lemma ScaledTotal(kind: RuleKind, f: real -> real, a: real, b: real, n: int, m: real)
    requires n >= 1 && kind.Admits(n)
    requires RangeSum(kind.Weights(), Samples(f, a, b, n), 0, n + 1) == m * WeightTotal(kind.Weights(), n, 0, n + 1)
    ensures Rule(kind, f, a, b, n).Success? && Rule(kind, f, a, b, n).value == m * (b - a)
  {
    var w := kind.Weights();
    var h := Step(a, b, n);
    var sum := RangeSum(w, Samples(f, a, b, n), 0, n + 1);
    var r := Rule(kind, f, a, b, n);
    assert r.Success? && r.value == kind.Factor() * h * sum;
    WeightsCancelFactor(kind, n);
    assert h * (n as real) == b - a;
    PartitionScale(kind.Factor(), h, sum, m, WeightTotal(w, n, 0, n + 1), n, b - a);
  }

  /** Every rule integrates a constant integrand f(x) = c exactly: the result is c*(b - a). */
  lemma ConstantIntegrand(kind: RuleKind, f: real -> real, c: real, a: real, b: real, n: int)
    requires forall x :: f(x) == c
    requires n >= 1 && kind.Admits(n)
    ensures Rule(kind, f, a, b, n) == Success(c * (b - a))
  {
    var y := Samples(f, a, b, n);
    assert forall i :: 0 <= i < |y| ==> y[i] == c;
    ConstantRangeSum(kind.Weights(), y, c, 0, n + 1);
    ScaledTotal(kind, f, a, b, n, c);
  }

  /** With symmetric weights, samples whose mirrored pairs average m
      (y_i + y_{n-i} = 2m) have weighted sum m times the total weight. */
  lemma SymmetricRangeSum(w: WeightFn, y: seq<real>, n: nat, m: real)
    requires n == |y| - 1
    requires forall i, j :: 0 <= i <= n && 0 <= j <= n && i + j == n ==> w(i, n) == w(j, n)
    requires forall i, j :: 0 <= i <= n && 0 <= j <= n && i + j == n ==> y[i] + y[j] == 2.0 * m
    ensures RangeSum(w, y, 0, n + 1) == m * WeightTotal(w, n, 0, n + 1)
  {
    var z := seq(n + 1, i requires 0 <= i <= n => y[i] - m);
    assert forall i, j :: 0 <= i <= n && 0 <= j <= n && i + j == n ==> z[i] + z[j] == 0.0;
    MirroredRangeSum(w, z, n, 0, n + 1);
    ShiftedRangeSum(w, y, z, m, 0, n + 1);
  }

  /** For an affine integrand, mirrored samples f(x_i) and f(x_{n-i}) add
      up to f(a) + f(b), since x_i + x_{n-i} = a + b. */
  lemma AffineSamplePairs(f: real -> real, p: real, q: real, a: real, b: real, n: nat)
    requires forall x :: f(x) == p * x + q
    requires n >= 1
    ensures forall i, j :: 0 <= i <= n && 0 <= j <= n && i + j == n ==>
      Samples(f, a, b, n)[i] + Samples(f, a, b, n)[j] == 2.0 * (p * (a + b) / 2.0 + q)
  {
  }

  /** The exact integral of p*x + q over [a, b] is (b - a) times its value at the midpoint. */
  lemma AffineArea(p: real, q: real, a: real, b: real)
    ensures (p * (a + b) / 2.0 + q) * (b - a) == p * (b * b - a * a) / 2.0 + q * (b - a)
  {
  }

  /** For an affine integrand the weighted sum of the samples is the value
      at the midpoint times the total weight. */
  lemma AffineSampleSum(kind: RuleKind, f: real -> real, p: real, q: real, a: real, b: real, n: nat)
    requires forall x :: f(x) == p * x + q
    requires n >= 1 && kind.Admits(n)
    ensures RangeSum(kind.Weights(), Samples(f, a, b, n), 0, n + 1)
      == (p * (a + b) / 2.0 + q) * WeightTotal(kind.Weights(), n, 0, n + 1)
  {
    AffineSamplePairs(f, p, q, a, b, n);
    SymmetricWeights(kind, n);
    SymmetricRangeSum(kind.Weights(), Samples(f, a, b, n), n, p * (a + b) / 2.0 + q);
  }

  /** Every rule integrates an affine integrand f(x) = p*x + q exactly, for
      every admitted n: the result is p*(b^2 - a^2)/2 + q*(b - a). */
  lemma AffineIntegrand(kind: RuleKind, f: real -> real, p: real, q: real, a: real, b: real, n: int)
    requires forall x :: f(x) == p * x + q
    requires n >= 1 && kind.Admits(n)
    ensures Rule(kind, f, a, b, n) == Success(p * (b * b - a * a) / 2.0 + q * (b - a))
  {
    var mid := p * (a + b) / 2.0 + q;
    AffineSampleSum(kind, f, p, q, a, b, n);
    ScaledTotal(kind, f, a, b, n, mid);
    AffineArea(p, q, a, b);
    var r := Rule(kind, f, a, b, n);
    assert r.Success? && r.value == p * (b * b - a * a) / 2.0 + q * (b - a);
  }

  /** A weighted sum of two or more samples is its first term, its middle and its last term. */
  lemma PeelBothEnds(w: WeightFn, y: seq<real>, lo: nat, hi: nat)
    requires lo + 2 <= hi <= |y|
    ensures RangeSum(w, y, lo, hi)
      == w(lo, |y| - 1) * y[lo] + RangeSum(w, y, lo + 1, hi - 1) + w(hi - 1, |y| - 1) * y[hi - 1]
  {
    RangeSumSnoc(w, y, lo + 1, hi - 1);
  }

  /** Two weighted sums with equal middles, and end samples swapped under
      equal end weights, are equal. */
  lemma SwappedEnds(w: WeightFn, y: seq<real>, z: seq<real>, lo: nat, hi: nat)
    requires |z| == |y| && lo + 2 <= hi <= |y|
    requires w(lo, |y| - 1) == w(hi - 1, |y| - 1) && z[lo] == y[hi - 1] && z[hi - 1] == y[lo]
    requires RangeSum(w, z, lo + 1, hi - 1) == RangeSum(w, y, lo + 1, hi - 1)
    ensures RangeSum(w, z, lo, hi) == RangeSum(w, y, lo, hi)
  {
    PeelBothEnds(w, y, lo, hi);
    PeelBothEnds(w, z, lo, hi);
  }

  /** With symmetric weights, reading the samples in reverse order,
      z_i = y_{n-i}, leaves the weighted sum over lo..n-lo unchanged. */
  lemma {:induction false} ReversedRangeSum(w: WeightFn, y: seq<real>, z: seq<real>, n: nat, lo: nat, hi: nat)
    requires n == |y| - 1 && |z| == |y| && lo <= hi && lo + hi == n + 1
    requires forall i, j :: 0 <= i <= n && 0 <= j <= n && i + j == n ==> w(i, n) == w(j, n)
    requires forall i, j :: 0 <= i <= n && 0 <= j <= n && i + j == n ==> z[i] == y[j]
    ensures RangeSum(w, z, lo, hi) == RangeSum(w, y, lo, hi)
    decreases hi - lo
  {
    if hi - lo == 1 {
      assert z[lo] == y[lo];
    } else if hi - lo >= 2 {
      assert w(lo, n) == w(hi - 1, n) && z[lo] == y[hi - 1] && z[hi - 1] == y[lo];
      ReversedRangeSum(w, y, z, n, lo + 1, hi - 1);
      SwappedEnds(w, y, z, lo, hi);
    }
  }

  /** The partition of [b, a] visits the points of [a, b] in reverse order. */
  lemma ReversedPartition(a: real, b: real, n: nat)
    requires n >= 1
    ensures Step(b, a, n) == -Step(a, b, n)
    ensures forall i, j :: 0 <= i <= n && 0 <= j <= n && i + j == n ==> Point(b, a, n, i) == Point(a, b, n, j)
  {
  }

  /** Sampling over [b, a] gives the samples over [a, b] in reverse order. */
  lemma ReversedSamples(f: real -> real, a: real, b: real, n: nat)
    requires n >= 1
    ensures forall i, j :: 0 <= i <= n && 0 <= j <= n && i + j == n ==> Samples(f, b, a, n)[i] == Samples(f, a, b, n)[j]
  {
    ReversedPartition(a, b, n);
  }

  /** A reversed interval gives the negated result: every rule applied to
      [b, a] returns minus what it returns on [a, b], as the integral does. */
  lemma ReversedInterval(kind: RuleKind, f: real -> real, a: real, b: real, n: int)
    requires n >= 1 && kind.Admits(n)
    ensures Rule(kind, f, a, b, n).Success? && Rule(kind, f, b, a, n).Success?
    ensures Rule(kind, f, b, a, n).value == -Rule(kind, f, a, b, n).value
  {
    var w := kind.Weights();
    var y, z := Samples(f, a, b, n), Samples(f, b, a, n);
    ReversedSamples(f, a, b, n);
    SymmetricWeights(kind, n);
    ReversedRangeSum(w, y, z, n, 0, n + 1);
    var r, s := Rule(kind, f, a, b, n), Rule(kind, f, b, a, n);
    assert r.Success? && r.value == kind.Factor() * Step(a, b, n) * RangeSum(w, y, 0, n + 1);
    assert s.Success? && s.value == kind.Factor() * Step(b, a, n) * RangeSum(w, z, 0, n + 1);
  }

  /** The rule reads f only at the n + 1 partition points: two integrands
      that agree there give the same result. */
  lemma OnlySamplesMatter(kind: RuleKind, f: real -> real, g: real -> real, a: real, b: real, n: int)
    requires n >= 1
    requires forall i :: 0 <= i <= n ==> f(Point(a, b, n, i)) == g(Point(a, b, n, i))
    ensures Rule(kind, f, a, b, n) == Rule(kind, g, a, b, n)
  {
    assert Samples(f, a, b, n) == Samples(g, a, b, n);
    assert kind.Admits(n) ==> Rule(kind, f, a, b, n).value == Rule(kind, g, a, b, n).value;
  }

  /** With one segment the trapezoid rule is the single trapezoid (b - a)/2 * (f(a) + f(b)). */
  lemma SingleTrapezoid(f: real -> real, a: real, b: real)
    ensures Rule(Trapezoidal, f, a, b, 1) == Success((b - a) / 2.0 * (f(a) + f(b)))
  {
    var y := Samples(f, a, b, 1);
    PartitionShape(a, b, 1);
    assert y[0] == f(a) && y[1] == f(b);
    assert RangeSum(Trapezoidal.Weights(), y, 0, 2) == f(a) + f(b);
    var r := Rule(Trapezoidal, f, a, b, 1);
    assert r.Success? && r.value == (b - a) / 2.0 * (f(a) + f(b));
  }

  /** With two segments Simpson 1/3 is (h/3) * (f(a) + 4 f(a + h) + f(b)), h = (b - a)/2,
      the middle point being the midpoint of [a, b]. */
  lemma SingleSimpson13(f: real -> real, a: real, b: real)
    ensures Rule(Simpson13, f, a, b, 2) == Success((b - a) / 6.0 * (f(a) + 4.0 * f((a + b) / 2.0) + f(b)))
  {
    var y := Samples(f, a, b, 2);
    PartitionShape(a, b, 2);
    assert Point(a, b, 2, 1) == (a + b) / 2.0;
    assert y[0] == f(a) && y[1] == f((a + b) / 2.0) && y[2] == f(b);
    assert RangeSum(Simpson13.Weights(), y, 0, 3) == f(a) + 4.0 * f((a + b) / 2.0) + f(b);
    var r := Rule(Simpson13, f, a, b, 2);
    assert r.Success? && r.value == (b - a) / 6.0 * (f(a) + 4.0 * f((a + b) / 2.0) + f(b));
  }

  /** With three segments Simpson 3/8 is (3h/8) * (f(a) + 3 f(a + h) + 3 f(a + 2h) + f(b)), h = (b - a)/3. */
  lemma SingleSimpson38(f: real -> real, a: real, b: real, h: real)
    requires h == (b - a) / 3.0
    ensures Rule(Simpson38, f, a, b, 3) == Success(3.0 * h / 8.0 * (f(a) + 3.0 * f(a + h) + 3.0 * f(a + 2.0 * h) + f(b)))
  {
    var y := Samples(f, a, b, 3);
    PartitionShape(a, b, 3);
    assert Point(a, b, 3, 1) == a + h && Point(a, b, 3, 2) == a + 2.0 * h;
    assert y[0] == f(a) && y[1] == f(a + h) && y[2] == f(a + 2.0 * h) && y[3] == f(b);
    assert RangeSum(Simpson38.Weights(), y, 0, 4) == f(a) + 3.0 * f(a + h) + 3.0 * f(a + 2.0 * h) + f(b);
    var r := Rule(Simpson38, f, a, b, 3);
    assert r.Success? && r.value == 3.0 * h / 8.0 * (f(a) + 3.0 * f(a + h) + 3.0 * f(a + 2.0 * h) + f(b));
  }
}
