/** The three rules of src/main.py, in the program's own form: a guard, the
    step h, np.linspace, f on the samples, and the weighted sum written with
    numpy slices (trapezoid, Simpson 1/3) or with an accumulator loop
    (Simpson 3/8). Each is proved equal to the generic rule of NewtonCotes. */
module Integration {
  import opened Errors
  import opened PyArray
  import opened NewtonCotes

  /** Sampling through np.linspace gives exactly the partition samples f(a + i*h), i = 0..n. */
  lemma SamplesFromLinspace(f: real -> real, a: real, b: real, n: int)
    requires n >= 1
    ensures Linspace(a, b, n + 1).Success?
    ensures Evaluate(f, Linspace(a, b, n + 1).value) == Samples(f, a, b, n)
  {
    var x := Linspace(a, b, n + 1).value;
    assert forall i :: 0 <= i <= n ==> x[i] == Point(a, b, n, i);
  }

  /** Interior samples whose weights are all c add up to c times their plain sum. */
  lemma {:induction false} UniformInterior(w: WeightFn, y: seq<real>, n: int, lo: nat, hi: nat, c: real)
    requires n == |y| - 1 && lo <= hi <= |y|
    requires forall i :: lo <= i < hi ==> w(i, n) == c
    ensures RangeSum(w, y, lo, hi) == c * Sum(y[lo..hi])
    decreases hi - lo
  {
    if lo < hi {
      UniformInterior(w, y, n, lo + 1, hi, c);
      assert y[lo..hi][1..] == y[lo + 1..hi];
    }
  }

  /** y[1:-1] is the interior y_1..y_{n-1} (empty when n = 1), and twice its
      sum is the trapezoid's interior weighted sum. */
  lemma TrapezoidalInterior(y: seq<real>)
    requires |y| >= 2
    ensures Slice(y, 1, -1, 1) == y[1..|y| - 1]
    ensures 2.0 * Sum(Slice(y, 1, -1, 1)) == RangeSum(Trapezoidal.Weights(), y, 1, |y| - 1)
  {
    var n := |y| - 1;
    assert Slice(y, 1, -1, 1) == y[1..n] by {
      assert Slice(y, 1, -1, 1) == Stride(y, 1, n, 1);
      UnitStride(y, 1, n);
    }
    assert 2.0 * Sum(y[1..n]) == RangeSum(Trapezoidal.Weights(), y, 1, n) by {
      assert forall i :: 1 <= i < n ==> Trapezoidal.Weights()(i, n) == 2.0;
      UniformInterior(Trapezoidal.Weights(), y, n, 1, n, 2.0);
    }
  }

  /** For an even n >= 2, y[1:-1:2] holds exactly the odd indices 1, 3, ..., n-1
      and y[2:-2:2] exactly the even interior indices 2, 4, ..., n-2. */
  lemma Simpson13Slices(y: seq<real>)
    requires |y| >= 3 && (|y| - 1) % 2 == 0
    ensures var n := |y| - 1; var odd := Slice(y, 1, -1, 2);
      |odd| == n / 2 && forall j :: 0 <= j < n / 2 ==> odd[j] == y[2 * j + 1]
    ensures var n := |y| - 1; var even := Slice(y, 2, -2, 2);
      |even| == n / 2 - 1 && forall j :: 0 <= j < n / 2 - 1 ==> even[j] == y[2 * j + 2]
  {
    StrideByTwo(y, 1, |y| - 1);
    StrideByTwo(y, 2, |y| - 2);
  }

  /** From an odd index k, the two strided sums with weights 4 and 2 give the
      Simpson 1/3 weighted sum of y_k..y_{n-1}. */
  lemma {:induction false} Simpson13Strides(y: seq<real>, k: nat)
    requires |y| >= 3 && (|y| - 1) % 2 == 0
    requires k % 2 == 1 && k < |y| - 1
    ensures var n := |y| - 1;
      4.0 * Sum(Stride(y, k, n, 2)) + 2.0 * Sum(Stride(y, k + 1, n - 1, 2)) == RangeSum(Simpson13.Weights(), y, k, n)
    decreases |y| - k
  {
    var n := |y| - 1;
    assert Stride(y, k, n, 2) == [y[k]] + Stride(y, k + 2, n, 2);
    assert RangeSum(Simpson13.Weights(), y, k, n) == 4.0 * y[k] + RangeSum(Simpson13.Weights(), y, k + 1, n);
    if k + 1 < n {
      Simpson13Strides(y, k + 2);
      assert Stride(y, k + 1, n - 1, 2) == [y[k + 1]] + Stride(y, k + 3, n - 1, 2);
      assert RangeSum(Simpson13.Weights(), y, k + 1, n) == 2.0 * y[k + 1] + RangeSum(Simpson13.Weights(), y, k + 2, n);
    }
  }

  /** 4*sum(y[1:-1:2]) + 2*sum(y[2:-2:2]) is the Simpson 1/3 interior weighted sum. */
  lemma Simpson13Interior(y: seq<real>)
    requires |y| >= 3 && (|y| - 1) % 2 == 0
    ensures 4.0 * Sum(Slice(y, 1, -1, 2)) + 2.0 * Sum(Slice(y, 2, -2, 2)) == RangeSum(Simpson13.Weights(), y, 1, |y| - 1)
  {
    Simpson13Strides(y, 1);
  }

  /** trapezoidal_rule: no guard on n; h divides by n, so n = 0 fails. */
  function TrapezoidalRule(f: real -> real, a: real, b: real, n: int): (r: Result<real>)
    ensures n >= 1 ==> r.Success?
    ensures r == Rule(Trapezoidal, f, a, b, n)
  {
    if n == 0 then Failure(ZeroDivision)
    else
      var h := (b - a) / n as real;
      var x := Linspace(a, b, n + 1);
      if x.Failure? then Failure(x.error)
      else
        var y := Evaluate(f, x.value);
        if |y| == 0 then Failure(IndexOutOfRange)
        else
          SamplesFromLinspace(f, a, b, n);
          TrapezoidalInterior(y);
          EndpointSplit(Trapezoidal.Weights(), y);
          var integral := (h / 2.0) * (Index(y, 0) + 2.0 * Sum(Slice(y, 1, -1, 1)) + Index(y, -1));
          assert Rule(Trapezoidal, f, a, b, n).value == integral;
          Success(integral)
  }

  /** simpson_13_rule: rejects an odd n before anything else is computed. */
  function Simpson13Rule(f: real -> real, a: real, b: real, n: int): (r: Result<real>)
    ensures n % 2 != 0 ==> r == Failure(InvalidSegmentCount)
    ensures n % 2 == 0 && n >= 2 ==> r.Success?
    ensures r == Rule(Simpson13, f, a, b, n)
  {
    if n % 2 != 0 then Failure(InvalidSegmentCount)
    else if n == 0 then Failure(ZeroDivision)
    else
      var h := (b - a) / n as real;
      var x := Linspace(a, b, n + 1);
      if x.Failure? then Failure(x.error)
      else
        var y := Evaluate(f, x.value);
        SamplesFromLinspace(f, a, b, n);
        Simpson13Interior(y);
        EndpointSplit(Simpson13.Weights(), y);
        var integral := (h / 3.0) * (Index(y, 0) + 4.0 * Sum(Slice(y, 1, -1, 2)) + 2.0 * Sum(Slice(y, 2, -2, 2)) + Index(y, -1));
        assert Rule(Simpson13, f, a, b, n).value == integral;
        Success(integral)
  }

  /** simpson_38_rule: rejects an n that is not a multiple of 3, then adds
      the interior samples one by one, 2*y_i at multiples of 3 and 3*y_i elsewhere. */
  method Simpson38Rule(f: real -> real, a: real, b: real, n: int) returns (r: Result<real>)
    ensures n % 3 != 0 ==> r == Failure(InvalidSegmentCount)
    ensures n % 3 == 0 && n >= 3 ==> r.Success?
    ensures r == Rule(Simpson38, f, a, b, n)
  {
    if n % 3 != 0 {
      return Failure(InvalidSegmentCount);
    }
    if n == 0 {
      return Failure(ZeroDivision);
    }
    var h := (b - a) / n as real;
    var x := Linspace(a, b, n + 1);
    if x.Failure? {
      return Failure(x.error);
    }
    var y := Evaluate(f, x.value);
    var sumRest := 0.0;
    var i := 1;
    while i < n
      invariant 1 <= i <= n
      invariant sumRest == RangeSum(Simpson38.Weights(), y, 1, i)
    {
      RangeSumSnoc(Simpson38.Weights(), y, 1, i);
      if i % 3 == 0 {
        sumRest := sumRest + 2.0 * y[i];
      } else {
        sumRest := sumRest + 3.0 * y[i];
      }
      i := i + 1;
    }
    SamplesFromLinspace(f, a, b, n);
    EndpointSplit(Simpson38.Weights(), y);
    var integral := (3.0 * h / 8.0) * (Index(y, 0) + sumRest + Index(y, -1));
    assert Rule(Simpson38, f, a, b, n).value == integral;
    r := Success(integral);
  }
}
