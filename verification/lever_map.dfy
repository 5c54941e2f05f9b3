/** The linear rescaling the HID driver applies to a raw lever sample
    (`map` in hid.rs), both as the exact integer function the code evidently
    means and as the `i32` arithmetic it is written in. */
module LeverMap {
  import opened Types

  /** Output range the HID driver maps the lever onto. */
  const OutMin: int := -32768
  const OutMax: int := 32768

  /** `map(x, in_min, in_max, out_min, out_max)` computed without overflow: the
      scaled offset of `x` in the input range, divided with truncation toward
      zero, shifted to `out_min`. A degenerate input range (equal bounds) yields
      `out_min` instead of dividing by zero. For an ordered input range the
      result stays in the output range. */
  function Map(x: int, inMin: int, inMax: int, outMin: int, outMax: int): (r: int)
    ensures inMax == inMin ==> r == outMin
    ensures inMin < inMax && inMin <= x <= inMax && outMin <= outMax ==> outMin <= r <= outMax
  {
    var numerator := (x - inMin) * (outMax - outMin);
    var denominator := inMax - inMin;
    if denominator == 0 then outMin
    else
      assert inMin < inMax && inMin <= x <= inMax && outMin <= outMax ==>
          0 <= numerator / denominator <= outMax - outMin by {
        if inMin < inMax && inMin <= x <= inMax && outMin <= outMax {
          ScaledFractionBounded(x - inMin, denominator, outMax - outMin);
        }
      }
      TruncDiv(numerator, denominator) + outMin
  }

  /** The reference value the repository's own unit test pins down, for the
      exact mapping and for the `i32` one the code computes (nothing
      overflows on these inputs). */
  lemma MapExample()
    ensures Map(12, -280, 280, -20000, 20000) == 857
    ensures MapI32(12, -280, 280, -20000, 20000) == 857
  {
    assert (12 - -280) * (20000 - -20000) == 11680000;
    assert 11680000 / 560 == 20857;
  }

  /** The ends of an ordered input range go to the ends of the output range. */
  lemma MapEndpoints(inMin: int, inMax: int, outMin: int, outMax: int)
    requires inMin < inMax
    ensures Map(inMin, inMin, inMax, outMin, outMax) == outMin
    ensures Map(inMax, inMin, inMax, outMin, outMax) == outMax
  {
    var d := inMax - inMin;
    var w := outMax - outMin;
    assert (inMin - inMin) * w == 0;
    assert TruncDiv(0, d) == 0;
    MulDivCancel(d, w);
    MulDivCancel(d, -w);
    assert Abs(d * w) == d * Abs(w) by {
      if w < 0 { assert d * w == -(d * (-w)); }
    }
    assert TruncDiv(d * w, d) == w;
  }

  /** Over an ordered input range and a non-decreasing output range, a larger
      sample never maps to a smaller value. */
  lemma MapMonotonic(x: int, y: int, inMin: int, inMax: int, outMin: int, outMax: int)
    requires inMin < inMax && outMin <= outMax
    requires inMin <= x <= y <= inMax
    ensures Map(x, inMin, inMax, outMin, outMax) <= Map(y, inMin, inMax, outMin, outMax)
  {
    var w := outMax - outMin;
    var d := inMax - inMin;
    MulMonotonic(x - inMin, y - inMin, w);
    MulNonNegative(x - inMin, w);
    DivMonotonic((x - inMin) * w, (y - inMin) * w, d);
  }

  /** Below the top of an ordered input range the result stays strictly
      below the top of a non-empty output range. */
  lemma MapBelowTop(x: int, inMin: int, inMax: int, outMin: int, outMax: int)
    requires inMin <= x < inMax && outMin < outMax
    ensures Map(x, inMin, inMax, outMin, outMax) < outMax
  {
    ScaledFractionBelow(x - inMin, inMax - inMin, outMax - outMin);
    MulNonNegative(x - inMin, outMax - outMin);
  }

  predicate InI32(v: int)
  {
    -0x8000_0000 <= v <= 0x7FFF_FFFF
  }

  /** Every intermediate value of `map` as written fits `i32`. */
  predicate NoOverflow(x: i32, inMin: i32, inMax: i32, outMin: i32, outMax: i32)
  {
    var offset := x - inMin;
    var width := outMax - outMin;
    var denominator := inMax - inMin;
    && InI32(offset)
    && InI32(width)
    && InI32(offset * width)
    && InI32(denominator)
    && (denominator != 0 ==> InI32(TruncDiv(offset * width, denominator)))
    && (denominator != 0 ==> InI32(TruncDiv(offset * width, denominator) + outMin))
  }

  /** `map` as written, in `i32` arithmetic that wraps on overflow (a release
      build; a debug build panics at the first overflowing operation instead).
      The one division that overflows, `i32::MIN / -1`, panics in every build;
      here it wraps. The HID driver's divisor is always positive.
      Where no intermediate value leaves `i32` it agrees with the exact `Map`. */
  function MapI32(x: i32, inMin: i32, inMax: i32, outMin: i32, outMax: i32): (r: i32)
    ensures NoOverflow(x, inMin, inMax, outMin, outMax) ==> r == Map(x, inMin, inMax, outMin, outMax)
  {
    var numerator := WrapI32(WrapI32(x - inMin) * WrapI32(outMax - outMin));
    var denominator := WrapI32(inMax - inMin);
    if denominator == 0 then outMin
    else WrapI32(WrapI32(TruncDiv(numerator, denominator)) + outMin)
  }

  /** How the HID driver calls `map`: a sample inside ordered 16-bit bounds onto
      [-32768, 32768]. The product on hid.rs line 150 fits `i32` exactly when the
      sample lies less than 32768 above the lower bound. */
  lemma PollMapOverflowIff(x: i16, inMin: i16, inMax: i16)
    requires inMin < inMax && inMin <= x <= inMax
    ensures NoOverflow(x, inMin, inMax, OutMin, OutMax) <==> x - inMin < 32768
  {
    var d := inMax - inMin;
    var offset := x - inMin;
    if offset < 32768 {
      assert offset * 65536 <= 32767 * 65536;
      ScaledFractionBounded(offset, d, 65536);
    } else {
      assert offset * 65536 >= 32768 * 65536;
    }
  }

  /** A calibration range 40000 wide (bounds -20000 and 20000) and a sample three
      quarters of the way up: the exact mapping gives 24576, the wrapped `i32`
      product gives -82798, which the `as i16` cast turns into -17262. */
  lemma MapI32OverflowExample()
    ensures Map(15000, -20000, 20000, OutMin, OutMax) == 24576
    ensures MapI32(15000, -20000, 20000, OutMin, OutMax) == -82798
    ensures WrapI16(MapI32(15000, -20000, 20000, OutMin, OutMax)) == -17262
    ensures WrapI16(Map(15000, -20000, 20000, OutMin, OutMax)) == 24576
  {
    assert 35000 * 65536 == 2293760000;
    assert WrapI32(2293760000) == -2001207296;
    assert TruncDiv(-2001207296, 40000) == -50030;
    assert 2293760000 / 40000 == 57344;
  }

  lemma MulNonNegative(a: int, b: int)
    requires a >= 0 && b >= 0
    ensures a * b >= 0
  {
  }

  lemma MulMonotonic(a: int, b: int, w: int)
    requires a <= b && w >= 0
    ensures a * w <= b * w
  {
    assert b * w - a * w == (b - a) * w;
    MulNonNegative(b - a, w);
  }

  lemma DivMonotonic(p: int, q: int, d: int)
    requires 0 <= p <= q && d > 0
    ensures p / d <= q / d
  {
    if p / d > q / d {
      MulMonotonic(q / d + 1, p / d, d);
    }
  }

  lemma MulDivCancel(d: int, w: int)
    requires d > 0
    ensures (d * w) / d == w
  {
    var q := (d * w) / d;
    var r := (d * w) % d;
    assert d * q + r == d * w;
    assert (w - q) * d == r;
    if w - q >= 1 {
      MulMonotonic(1, w - q, d);
    } else if w - q <= -1 {
      MulMonotonic(w - q, -1, d);
    }
  }

  /** A fraction `offset / d` of `w`, for `0 <= offset <= d`, lies in `[0, w]`. */
  lemma ScaledFractionBounded(offset: int, d: int, w: int)
    requires 0 <= offset <= d && 0 < d && w >= 0
    ensures 0 <= (offset * w) / d <= w
  {
    MulNonNegative(offset, w);
    MulMonotonic(offset, d, w);
    DivMonotonic(offset * w, d * w, d);
    MulDivCancel(d, w);
  }

  /** A fraction `offset / d` of a positive `w`, for `0 <= offset < d`, stays below `w`. */
  lemma ScaledFractionBelow(offset: int, d: int, w: int)
    requires 0 <= offset < d && w > 0
    ensures (offset * w) / d < w
  {
    var q := (offset * w) / d;
    MulMonotonic(offset, d - 1, w);
    assert (d - 1) * w == d * w - w;
    if q >= w {
      MulMonotonic(w, q, d);
    }
  }
}
