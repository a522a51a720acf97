# Composite Newton–Cotes quadrature, modelled in Dafny

The repository approximates the definite integral of a function `f` over
`[a, b]` with three composite Newton–Cotes rules: the trapezoidal rule,
Simpson's 1/3 rule and Simpson's 3/8 rule (`src/main.py`), plus a
stand-alone copy of Simpson's 1/3 rule (`src/simpson13.py`). Every rule
checks a divisibility guard on the segment count `n`, computes the step
`h = (b - a)/n`, samples `f` at the `n + 1` points of `np.linspace(a, b, n + 1)`
and returns a scaled, weighted sum of the samples.

The model works on exact `real` numbers, with the integrand a total function
`f: real -> real`. It has five modules:

- `Errors` (`errors.dfy`): the Python exceptions the rules can raise, as an
  `Error` datatype, and `Result<T>`.
- `PyArray` (`pyarray.dfy`): the Python and numpy behaviour the rules rely on.
  This covers `np.sum`, indexing with `y[-1]`, slices with a positive step
  (negative bounds count from the end, bounds are clamped),
  `np.linspace` (a negative count is a `ValueError`) and applying `f`
  element-wise.
- `NewtonCotes` (`newtoncotes.dfy`): the reference definition. One weighted
  rule is parameterised by a `RuleKind` that gives the guard, the factor
  (1/2, 1/3, 3/8) and the weight of sample `i` of `n`. `Rule` fails
  exactly where the program fails, in the same order. The properties of
  the rules are proved about `Rule`: weight totals, exactness for constant
  and affine integrands, the reversed interval, and the one-panel formulas.
- `Integration` (`integration.dfy`): the three rules of `src/main.py` in the
  program's own form. `TrapezoidalRule` and `Simpson13Rule` are functions
  written over the numpy slices. `Simpson38Rule` is a method whose loop
  accumulates `sum_rest` one sample at a time. Each is proved equal to `Rule`.
- `StandaloneSimpson` (`standalone.dfy`): the copy in `src/simpson13.py`.
  It is proved equal to `Integration.Simpson13Rule` on every input.

The outcome for each `n` follows the code. A failed guard gives
`InvalidSegmentCount` (the rule's `ValueError`). `n == 0` gives
`ZeroDivision` (raised by `h = (b - a)/n`). `n == -1` gives
`IndexOutOfRange`, because `np.linspace(a, b, 0)` is empty and `y[0]`
fails. `n <= -2` gives `InvalidSampleCount` (`np.linspace` with a negative
count). Python's `%` floors, but an `== 0` test on it agrees with Dafny's
Euclidean `%`, so the guards are written with Dafny's operator.

The rules keep no state between calls. Two of them are functions, and the
3/8 method's result is pinned by `r == Rule(...)`. The same `(f, a, b, n)`
therefore always gives the same outcome.

## Model

| member | source | states |
|---|---|---|
| Integration.TrapezoidalRule | src/main.py:18-28 | the trapezoid rule over the slice `y[1:-1]` equals the reference rule on every `n`: it succeeds for every `n >= 1`, gives `ZeroDivision` for `n = 0` and the linspace and indexing errors for negative `n` |
| Integration.Simpson13Rule | src/main.py:33-47 | an odd `n` gives `InvalidSegmentCount`; every even `n >= 2` succeeds; the slice formula equals the reference Simpson 1/3 rule on every input |
| Integration.Simpson38Rule | src/main.py:52-74 | an `n` not divisible by 3 gives `InvalidSegmentCount`; every multiple of 3 from 3 up succeeds; the loop keeps `sum_rest` equal to the weighted sum of `y_1..y_{i-1}`, and the result equals the reference Simpson 3/8 rule |
| StandaloneSimpson.Simpson13Rule | src/simpson13.py:3-11 | an odd `n` gives `InvalidSegmentCount`; every even `n >= 2` succeeds; the result equals the reference Simpson 1/3 rule |
| StandaloneSimpson.AgreesWithMain | src/simpson13.py:3-11 | the copy has the same outcome as `simpson_13_rule` in `src/main.py` on every input: the same error or the same value |
| NewtonCotes.Rule | src/main.py:18-74 | the reference weighted rule; it succeeds exactly when the rule's guard admits `n` and `n >= 1`; otherwise it fails with the rule's guard error, `ZeroDivision`, `IndexOutOfRange` or `InvalidSampleCount`, in the order the program raises them |
| NewtonCotes.RuleKind.Admits | src/main.py:38-58 | definition, no contract: the guards `n % 2 == 0` (src/main.py:38) and `n % 3 == 0` (src/main.py:57); the trapezoid rule has none |
| PyArray.Sum | src/main.py:27 | definition, no contract: `np.sum` of a one-dimensional array, also used at src/main.py:46 |
| PyArray.Index | src/main.py:27 | definition, no contract: `y[0]` and `y[-1]`, a negative index counting from the end, also used at src/main.py:46 and :73 |
| PyArray.Stride | src/main.py:46 | definition, no contract: the elements at `lo, lo + step, ...` below `hi`; its contents are stated by `PyArray.StrideByTwo` and `PyArray.UnitStride` |
| PyArray.Slice | src/main.py:46 | definition, no contract: `s[start:stop:step]` for a positive step, as `y[1:-1]` (src/main.py:27), `y[1:-1:2]` and `y[2:-2:2]`; its contents are stated by `Integration.TrapezoidalInterior` and `Integration.Simpson13Slices` |
| PyArray.Evaluate | src/main.py:24 | definition, no contract: `y = f(x)` applied element-wise, also at src/main.py:43 and :62; its result is stated by `Integration.SamplesFromLinspace` |
| PyArray.Linspace | src/main.py:23 | `np.linspace(a, b, num)` fails exactly when `num < 0`; otherwise it has `num` points, starts at `a`, ends at `b` and is evenly spaced by `(b - a)/(num - 1)` |
| PyArray.SliceBound | src/main.py:27 | a slice bound lies in `[0, len]`; a bound already in range is kept, and a negative bound counts from the end |
| PyArray.StrideByTwo | src/main.py:46 | a step-2 slice from `lo` below `hi` holds exactly `s[lo], s[lo + 2], ...`, and its length is the number of such positions |
| PyArray.UnitStride | src/main.py:27 | a step-1 slice is the contiguous subsequence `s[lo..hi]` |
| Integration.SamplesFromLinspace | src/main.py:23-24 | for `n >= 1`, `f(np.linspace(a, b, n + 1))` is exactly the samples `f(a + i*h)`, `i = 0..n` |
| Integration.TrapezoidalInterior | src/main.py:27 | `y[1:-1]` is `y_1..y_{n-1}` (empty for `n = 1`), and twice its sum is the trapezoid's interior weighted sum |
| Integration.Simpson13Slices | src/main.py:46 | for even `n >= 2`, `y[1:-1:2]` holds exactly the odd indices `1..n-1` and `y[2:-2:2]` exactly the even interior indices `2..n-2` (empty for `n = 2`) |
| Integration.Simpson13Interior | src/main.py:46 | `4*sum(y[1:-1:2]) + 2*sum(y[2:-2:2])` is the Simpson 1/3 interior weighted sum: weight 4 at odd and 2 at even interior indices |
| Integration.Simpson13Strides | src/main.py:46 | from any odd index, the two strided sums with weights 4 and 2 give the Simpson 1/3 weighted sum of the rest of the interior |
| Integration.UniformInterior | src/main.py:27 | interior samples that all weigh `c` contribute `c` times their plain sum |
| NewtonCotes.PartitionShape | src/main.py:22-23 | the partition has `x_0 = a` and `x_n = b`, and consecutive points are exactly `h` apart |
| NewtonCotes.RangeSumSnoc | src/main.py:66-70 | adding sample `i` with its weight extends the weighted sum by one index, which is what each iteration of the 3/8 loop does |
| NewtonCotes.EndpointSplit | src/main.py:73 | with end weights 1, the full weighted sum is `y_0 + interior + y_n` |
| NewtonCotes.TrapezoidalInteriorTotal | src/main.py:27 | the interior trapezoid weights total `2(n - 1)` |
| NewtonCotes.Simpson13InteriorTotal | src/main.py:46 | the interior Simpson 1/3 weights from an odd index `k` total `3(n - k) + 1` |
| NewtonCotes.Simpson38InteriorTotal | src/main.py:66-70 | the interior Simpson 3/8 weights over the last `m` groups of three total `8m - 2` |
| NewtonCotes.WeightsCancelFactor | src/main.py:27-73 | the full weights sum to `2n`, `3n` and `8n/3`, so the factors 1/2, 1/3 and 3/8 turn them into `n` |
| NewtonCotes.ConstantRangeSum | src/main.py:27-73 | when every sample is `c`, the weighted sum is `c` times the total weight |
| NewtonCotes.ScaledTotal | src/main.py:27-73 | when the weighted sum is `m` times the total weight, the rule returns `m*(b - a)` |
| NewtonCotes.ConstantIntegrand | src/main.py:27-73 | every rule returns `c*(b - a)` for the constant integrand `c`, for every admitted `n >= 1` |
| NewtonCotes.SymmetricWeights | src/main.py:27-70 | on an admitted partition sample `i` and sample `n - i` weigh the same |
| NewtonCotes.ShiftedRangeSum | src/main.py:27-73 | raising every sample by `c` raises the weighted sum by `c` times the total weight |
| NewtonCotes.MirroredRangeSum | src/main.py:27-73 | with symmetric weights, samples that cancel in mirrored pairs have weighted sum 0 |
| NewtonCotes.SymmetricRangeSum | src/main.py:27-73 | with symmetric weights, samples whose mirrored pairs average `m` have weighted sum `m` times the total weight |
| NewtonCotes.AffineSamplePairs | src/main.py:22-24 | for `f(x) = p*x + q`, mirrored samples add up to twice the midpoint value |
| NewtonCotes.AffineSampleSum | src/main.py:27-73 | for `f(x) = p*x + q`, the weighted sum is the midpoint value times the total weight |
| NewtonCotes.AffineIntegrand | src/main.py:27-73 | every rule integrates `p*x + q` exactly, giving `p*(b^2 - a^2)/2 + q*(b - a)` for every admitted `n >= 1` |
| NewtonCotes.ReversedPartition | src/main.py:22-23 | the partition of `[b, a]` has step `-h` and visits the points of `[a, b]` in reverse order |
| NewtonCotes.ReversedSamples | src/main.py:22-24 | sampling over `[b, a]` gives the samples over `[a, b]` in reverse order |
| NewtonCotes.ReversedRangeSum | src/main.py:27-73 | with symmetric weights, reversing the samples leaves the weighted sum unchanged |
| NewtonCotes.ReversedInterval | src/main.py:18-74 | every rule applied to `[b, a]` returns minus its result on `[a, b]`, as the integral does |
| NewtonCotes.OnlySamplesMatter | src/main.py:18-74 | the result depends on `f` only through its values at the `n + 1` partition points |
| NewtonCotes.SingleTrapezoid | src/main.py:27 | for `n = 1` the trapezoid rule is `(b - a)/2 * (f(a) + f(b))` |
| NewtonCotes.SingleSimpson13 | src/main.py:46 | for `n = 2` Simpson 1/3 is `(b - a)/6 * (f(a) + 4 f((a + b)/2) + f(b))` |
| NewtonCotes.SingleSimpson38 | src/main.py:73 | for `n = 3` Simpson 3/8 is `(3h/8) * (f(a) + 3 f(a + h) + 3 f(a + 2h) + f(b))` |

## Left out

- `plot_area_visualization` (src/main.py:79-115): plotting, writing an image file and printing, with no computation the rules depend on.
- Floating point: the model uses exact reals. It says nothing about rounding in `np.linspace`, the summation order of `np.sum` or the accumulated error of the 3/8 loop. In exact arithmetic the last linspace point is exactly `b`.
- Convergence order (the O(h^2) and O(h^4) error terms) and errors against an exact antiderivative. These are analysis results, not behaviour of the code. Exactness is proved only for constant and affine integrands.
- The experiment driver and the convergence sweep: `src/main.py` ends at its "Main Experiment Logic" header, and no sweep code is part of this model.
- Errors raised by the integrand, and integrands that are not element-wise functions of a numpy array: `f` is a total, pure `real -> real`.
- The rules' guard rejects an odd `n` (or a non-multiple of 3) before `f` is evaluated. The model has the same result for those inputs, but since `f` is pure it does not record which evaluations happened.
- `n == 0`: the model assumes `a` and `b` are Python scalars, so `(b - a)/0` raises `ZeroDivisionError`. With numpy scalars it would produce an infinity or NaN instead, and that case is not modelled.
- Non-integer `n` is not modelled. A float `n` would fail in `np.linspace`.
- The 3/8 accumulator starts from the integer `0` and is added to as a float. The model starts it at `0.0`, which is the same in exact arithmetic.
- The outcome for a segment count outside the rules' evident domain follows the code. `n = 0` passes the Simpson guards and then raises `ZeroDivisionError` at `h = (b - a) / n` (src/main.py:22), modelled as `ZeroDivision`, not as the rules' `ValueError`. `n = -1` makes `np.linspace(a, b, 0)` empty, so `y[0]` fails, modelled as `IndexOutOfRange`. `n <= -2` gives `np.linspace` a negative count, modelled as `InvalidSampleCount`. A reversed interval (`a > b`) is accepted, and `NewtonCotes.ReversedInterval` proves that it negates the result.
