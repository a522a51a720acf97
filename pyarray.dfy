/** The parts of Python and numpy the rules rely on, on exact reals:
    np.sum, indexing with negative indices, slices with a positive step,
    np.linspace and the element-wise application of the integrand. */
module PyArray {
  import opened Errors

  /** np.sum of a one-dimensional array. */
  function Sum(s: seq<real>): real
  {
    if |s| == 0 then 0.0 else s[0] + Sum(s[1..])
  }

  /** s[i], where a negative i counts from the end. */
  function Index(s: seq<real>, i: int): real
    requires -|s| <= i < |s|
  {
    if i < 0 then s[|s| + i] else s[i]
  }

  /** A slice bound as Python normalises it for a positive step: negative
      bounds count from the end, and every bound is clamped into [0, len]. */
  function SliceBound(i: int, len: nat): (k: nat)
    ensures k <= len
    ensures 0 <= i <= len ==> k == i
    ensures i < 0 && 0 <= i + len ==> k == i + len
  {
    if i < 0 then (if i + len < 0 then 0 else i + len)
    else if i > len then len
    else i
  }

  /** The elements s[lo], s[lo + step], ... that lie below hi. */
  function Stride(s: seq<real>, lo: nat, hi: nat, step: nat): seq<real>
    requires 1 <= step && hi <= |s|
    decreases hi - lo
  {
    if lo >= hi then [] else [s[lo]] + Stride(s, lo + step, hi, step)
  }

  /** s[start:stop:step] for a positive step. */
  function Slice(s: seq<real>, start: int, stop: int, step: nat): seq<real>
    requires 1 <= step
  {
    Stride(s, SliceBound(start, |s|), SliceBound(stop, |s|), step)
  }

  /** A slice with step 2 holds exactly the elements at lo, lo + 2, ...,
      and its length is the number of such positions below hi. */
  lemma {:induction false} StrideByTwo(s: seq<real>, lo: nat, hi: nat)
    requires hi <= |s|
    ensures var t := Stride(s, lo, hi, 2);
      (lo >= hi ==> |t| == 0) &&
      (lo < hi ==> lo + 2 * (|t| - 1) < hi <= lo + 2 * |t|) &&
      forall j :: 0 <= j < |t| ==> t[j] == s[lo + 2 * j]
    decreases hi - lo
  {
    if lo < hi {
      var t := Stride(s, lo, hi, 2);
      var rest := Stride(s, lo + 2, hi, 2);
      StrideByTwo(s, lo + 2, hi);
      assert t == [s[lo]] + rest;
      forall j | 0 < j < |t|
        ensures t[j] == s[lo + 2 * j]
      {
        assert t[j] == rest[j - 1];
      }
    }
  }

  /** With step 1, a slice is the contiguous subsequence. */
  lemma {:induction false} UnitStride(s: seq<real>, lo: nat, hi: nat)
    requires lo <= hi <= |s|
    ensures Stride(s, lo, hi, 1) == s[lo..hi]
    decreases hi - lo
  {
    if lo < hi {
      UnitStride(s, lo + 1, hi);
      assert s[lo..hi] == [s[lo]] + s[lo + 1..hi];
    }
  }

  /** np.linspace(a, b, num) with its default endpoint=True: num evenly
      spaced points from a to b inclusive; a negative num is a ValueError. */
  function Linspace(a: real, b: real, num: int): (r: Result<seq<real>>)
    ensures r.Failure? <==> num < 0
    ensures r.Failure? ==> r.error == InvalidSampleCount
    ensures r.Success? ==> |r.value| == num
    ensures r.Success? && num >= 1 ==> r.value[0] == a
    ensures r.Success? && num >= 2 ==> r.value[num - 1] == b
    ensures r.Success? && num >= 2 ==>
      forall i :: 0 <= i < num - 1 ==> r.value[i + 1] - r.value[i] == (b - a) / (num - 1) as real
  {
    if num < 0 then Failure(InvalidSampleCount)
    else if num == 0 then Success([])
    else if num == 1 then Success([a])
    else
      var step := (b - a) / (num - 1) as real;
      Success(seq(num, i requires 0 <= i < num => a + (i as real) * step))
  }

  /** f(x) for a numpy array x: the integrand applied to every element. */
  function Evaluate(f: real -> real, x: seq<real>): seq<real>
  {
    seq(|x|, i requires 0 <= i < |x| => f(x[i]))
  }
}
