/** `scale`: clamped linear interpolation from a source range to a
    destination range, over the reals. */
module Scaling {
  import opened Wrappers

  /** A (low, high) pair, indexed as `src[0]` and `src[1]` in the source. */
  type Range = (real, real)

  /** Python's ZeroDivisionError, raised only when `val == src[0] == src[1]`. */
  datatype ScaleError = ZeroDivision

  /** Below the source range gives `dst[0]`, above it `dst[1]`; inside it the
      proportional point of `dst` (see `ScaleInterpolates`). Only a value
      equal to both ends of a one-point source divides by zero. */
  function Scale(val: real, src: Range, dst: Range): (r: Result<real, ScaleError>)
    ensures val < src.0 ==> r == Success(dst.0)
    ensures src.0 <= val && src.1 < val ==> r == Success(dst.1)
    ensures r.Failure? <==> val == src.0 == src.1
  {
    if val < src.0 then Success(dst.0)
    else if val > src.1 then Success(dst.1)
    else if src.1 == src.0 then Failure(ZeroDivision)
    else Success((val - src.0) / (src.1 - src.0) * (dst.1 - dst.0) + dst.0)
  }

  lemma MulMonotone(a: real, b: real, k: real)
    requires a <= b && 0.0 <= k
    ensures a * k <= b * k
  {
  }

  lemma DivMonotone(a: real, b: real, d: real)
    requires a <= b && 0.0 < d
    ensures a / d <= b / d
  {
    assert b / d - a / d == (b - a) / d;
  }

  lemma ZeroProduct(a: real, d: real)
    requires d != 0.0 && a * d == 0.0
    ensures a == 0.0
  {
  }

  /** A share of a positive whole lies between 0 and 1. */
  lemma RatioBounds(a: real, d: real)
    requires 0.0 <= a <= d && 0.0 < d
    ensures 0.0 <= a / d <= 1.0
  {
  }

  /** Inside the source range the result divides `dst` in the ratio `val`
      divides `src`. */
  lemma ScaleInterpolates(val: real, src: Range, dst: Range)
    requires src.0 <= val <= src.1 && src.0 < src.1
    ensures Scale(val, src, dst).Success?
    ensures (Scale(val, src, dst).value - dst.0) * (src.1 - src.0) == (val - src.0) * (dst.1 - dst.0)
  {
  }

  /** The ends of the source range land on the ends of the destination. */
  lemma ScaleEndpoints(src: Range, dst: Range)
    requires src.0 < src.1
    ensures Scale(src.0, src, dst) == Success(dst.0)
    ensures Scale(src.1, src, dst) == Success(dst.1)
  {
    var d := src.1 - src.0;
    ScaleInterpolates(src.0, src, dst);
    ScaleInterpolates(src.1, src, dst);
    var lo, hi := Scale(src.0, src, dst).value, Scale(src.1, src, dst).value;
    ZeroProduct(lo - dst.0, d);
    assert (hi - dst.0) * d == d * (dst.1 - dst.0);
  }

  /** On an increasing source range and a non-decreasing destination, the
      result lies within the destination. */
  lemma ScaleBounded(val: real, src: Range, dst: Range)
    requires src.0 < src.1 && dst.0 <= dst.1
    ensures Scale(val, src, dst).Success?
    ensures dst.0 <= Scale(val, src, dst).value <= dst.1
  {
    if src.0 <= val <= src.1 {
      var t := (val - src.0) / (src.1 - src.0);
      RatioBounds(val - src.0, src.1 - src.0);
      MulMonotone(0.0, t, dst.1 - dst.0);
      MulMonotone(t, 1.0, dst.1 - dst.0);
    }
  }

  /** ... and it is monotone non-decreasing in `val`. */
  lemma ScaleMonotone(v: real, w: real, src: Range, dst: Range)
    requires src.0 < src.1 && dst.0 <= dst.1 && v <= w
    ensures Scale(v, src, dst).Success? && Scale(w, src, dst).Success?
    ensures Scale(v, src, dst).value <= Scale(w, src, dst).value
  {
    ScaleBounded(v, src, dst);
    ScaleBounded(w, src, dst);
    if src.0 <= v && w <= src.1 {
      var d := src.1 - src.0;
      var tv, tw := (v - src.0) / d, (w - src.0) / d;
      DivMonotone(v - src.0, w - src.0, d);
      MulMonotone(tv, tw, dst.1 - dst.0);
    }
  }

  /** Scaling back with the ranges swapped returns the original value, for
      a value inside an increasing source and an increasing destination. */
  lemma ScaleRoundTrip(val: real, src: Range, dst: Range)
    requires src.0 < src.1 && dst.0 < dst.1 && src.0 <= val <= src.1
    ensures Scale(val, src, dst).Success?
    ensures Scale(Scale(val, src, dst).value, dst, src) == Success(val)
  {
    ScaleBounded(val, src, dst);
    var w := Scale(val, src, dst).value;
    ScaleInterpolates(val, src, dst);
    ScaleInterpolates(w, dst, src);
    var back := Scale(w, dst, src).value;
    var d, e := src.1 - src.0, dst.1 - dst.0;
    assert (w - dst.0) * d == (val - src.0) * e;
    assert (back - src.0) * e == (w - dst.0) * d;
    assert (back - src.0) * e == (val - src.0) * e;
    assert (back - val) * e == 0.0;
  }

  /** The documented examples. */
  lemma ScaleExamples()
    ensures Scale(0.0, (0.0, 99.0), (-1.0, 1.0)) == Success(-1.0)
    ensures Scale(-5.0, (0.0, 99.0), (-1.0, 1.0)) == Success(-1.0)
    ensures Scale(50.0, (0.0, 100.0), (0.0, 1.0)) == Success(0.5)
  {
    ScaleEndpoints((0.0, 99.0), (-1.0, 1.0));
    ScaleInterpolates(50.0, (0.0, 100.0), (0.0, 1.0));
  }

  /** An inverted source range is never interpolated: every value is clamped. */
  lemma ScaleInvertedSource(val: real, src: Range, dst: Range)
    requires src.1 < src.0
    ensures Scale(val, src, dst) == Success(if val < src.0 then dst.0 else dst.1)
  {
  }
}
