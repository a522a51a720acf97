/** src/simpson13.py: a stand-alone copy of Simpson's 1/3 rule. */
module StandaloneSimpson {
  import opened Errors
  import opened PyArray
  import opened NewtonCotes
  import Integration

  /** simpson_13_rule: rejects an odd n, then the closed form over the slices y[1:-1:2] and y[2:-2:2]. */
  function Simpson13Rule(f: real -> real, a: real, b: real, n: int): (r: Result<real>)
    ensures n % 2 != 0 ==> r == Failure(InvalidSegmentCount)
    ensures n % 2 == 0 && n >= 2 ==> r.Success?
    ensures r == Rule(Simpson13, f, a, b, n)
  {
    if n % 2 != 0 then Failure(InvalidSegmentCount)
    else if n == 0 then Failure(ZeroDivision)
    else
      var h := (b - a) / n as real;
      var x := Linspace(a, b, n + 1);
      if x.Failure? then Failure(x.error)
      else
        var y := Evaluate(f, x.value);
        Integration.SamplesFromLinspace(f, a, b, n);
        Integration.Simpson13Interior(y);
        EndpointSplit(Simpson13.Weights(), y);
        var integral := (h / 3.0) * (Index(y, 0) + 4.0 * Sum(Slice(y, 1, -1, 2)) + 2.0 * Sum(Slice(y, 2, -2, 2)) + Index(y, -1));
        assert Rule(Simpson13, f, a, b, n).value == integral;
        Success(integral)
  }

  /** The copy behaves exactly like simpson_13_rule in src/main.py on every
      input: the same error for an odd n or a non-positive n, the same value otherwise. */
  lemma AgreesWithMain(f: real -> real, a: real, b: real, n: int)
    ensures Simpson13Rule(f, a, b, n) == Integration.Simpson13Rule(f, a, b, n)
  {
  }
}
