/**
 * Bin arithmetic of the histogram: which bin a value falls into and the
 * label (midpoint) of a bin.
 *
 * The arithmetic is exact (`real`), not single-precision floating point. The
 * source divides by `max.next_up() - min`, where `next_up` is the next
 * representable float above `max`; here that value is `max + eps` for an
 * abstract `eps > 0`. Lemmas that depend on `eps` being "the next float",
 * i.e. tiny compared to a bin, say how small it must be.
 */
module Bins {

  /** `f32::trunc`: the integer part, rounding toward zero. */
  function Trunc(t: real): (i: int)
    ensures 0.0 <= t ==> 0 <= i && i as real <= t < i as real + 1.0
    ensures t < 0.0 ==> i <= 0 && i as real - 1.0 < t <= i as real
  {
    if t >= 0.0 then t.Floor else -((-t).Floor)
  }

  /**
   * The divisor of the bin computation, `max.next_up() - min`. Widening it
   * past `max - min` keeps it positive when `max == min`.
   */
  function WidenedSpan(min: real, max: real, eps: real): (d: real)
    requires min <= max && 0.0 < eps
    ensures 0.0 < d && max - min < d
  {
    max + eps - min
  }

  /**
   * `get_bin_index`: `((x - min) / (next_up(max) - min) * bins).trunc() as usize`.
   * A float-to-`usize` cast saturates, so a negative quotient gives 0.
   * For every `x` between `min` and `max` inclusive the index is a bin of the
   * histogram; a value at or below `min` goes to bin 0.
   */
  function BinIndex(x: real, min: real, max: real, bins: nat, eps: real): (k: nat)
    requires min <= max && 0.0 < eps
    ensures 1 <= bins && min <= x <= max ==> k < bins
    ensures x <= min ==> k == 0
  {
    var d := WidenedSpan(min, max, eps);
    var t := (x - min) / d * bins as real;
    var i := Trunc(t);
    QuotientBounds(x - min, d, bins as real);
    if i < 0 then 0 else i
  }

  /** `a / d * b` is at most 0 for `a <= 0`, and below `b` for `0 <= a < d` and `b > 0`. */
  lemma QuotientBounds(a: real, d: real, b: real)
    requires 0.0 < d && 0.0 <= b
    ensures a <= 0.0 ==> a / d * b <= 0.0
    ensures 0.0 <= a < d && 0.0 < b ==> a / d * b < b
  {
    if a <= 0.0 {
      QuotientNonPositive(a, d, b);
    } else if a < d {
      FractionBelowOne(a, d, b);
    }
  }

  lemma FractionBelowOne(a: real, d: real, b: real)
    requires 0.0 <= a < d && 0.0 <= b
    ensures 0.0 < b ==> a / d * b < b
  {
    var q := a / d;
    assert q * d == a;
    assert q < 1.0;
  }

  lemma QuotientNonPositive(a: real, d: real, b: real)
    requires a <= 0.0 && 0.0 < d && 0.0 <= b
    ensures a / d * b <= 0.0
  {
    var q := a / d;
    assert q * d == a;
    assert q <= 0.0;
  }

  /**
   * Reference definition of the bins: for a value at or above `min`, the index
   * is `k` exactly when `x` lies in the `k`-th of `bins` equal slices of the
   * widened span `[min, next_up(max))`, i.e.
   * `k * span <= (x - min) * bins < (k + 1) * span`.
   */
  lemma {:induction false} BinIndexIsSlice(x: real, min: real, max: real, bins: nat, eps: real, k: nat)
    requires min <= max && 0.0 < eps && min <= x
    ensures BinIndex(x, min, max, bins, eps) == k <==>
      k as real * WidenedSpan(min, max, eps) <= (x - min) * bins as real < (k + 1) as real * WidenedSpan(min, max, eps)
  {
    var d := WidenedSpan(min, max, eps);
    var t := (x - min) / d * bins as real;
    ScaledQuotient(x - min, d, bins as real);
    QuotientNonNegative(x - min, d, bins as real);
    assert BinIndex(x, min, max, bins, eps) == Trunc(t);
    TruncSlice(t, d, (x - min) * bins as real, k);
  }

  /** With `t * d == a` and `d > 0`, `t` truncates to `k` exactly when `a` lies in `[k * d, (k + 1) * d)`. */
  lemma TruncSlice(t: real, d: real, a: real, k: nat)
    requires 0.0 <= t && 0.0 < d && t * d == a
    ensures Trunc(t) == k <==> k as real * d <= a < (k + 1) as real * d
  {
    TruncIs(t, k);
    ScaleOrder(k as real, t, d, k as real * d, a);
    ScaleOrder(t, (k + 1) as real, d, a, (k + 1) as real * d);
  }

  /** `a / d * b`, scaled back by `d`, is `a * b`. */
  lemma ScaledQuotient(a: real, d: real, b: real)
    requires 0.0 < d
    ensures a / d * b * d == a * b
  {
    var q := a / d;
    assert q * d == a;
    assert q * b * d == q * d * b;
  }

  lemma QuotientNonNegative(a: real, d: real, b: real)
    requires 0.0 <= a && 0.0 < d && 0.0 <= b
    ensures 0.0 <= a / d * b
  {
    assert 0.0 <= a / d;
  }

  /** For a non-negative `t`, the truncation is `k` exactly when `k <= t < k + 1`. */
  lemma TruncIs(t: real, k: nat)
    requires 0.0 <= t
    ensures Trunc(t) == k <==> k as real <= t < (k + 1) as real
  {
    var i := Trunc(t);
    if k as real <= t < (k + 1) as real {
      assert k < i + 1 && i < k + 1;
    }
  }

  /** Scaling by a positive factor keeps the order. */
  lemma ScaleOrder(a: real, b: real, d: real, pa: real, pb: real)
    requires 0.0 < d && a * d == pa && b * d == pb
    ensures a <= b <==> pa <= pb
    ensures a < b <==> pa < pb
  {
    assert pb - pa == (b - a) * d;
  }

  /** The minimum always goes to bin 0 (the tests place `0.0` in `[0, 10]` and `-1.0` in `[-1, 1]` there). */
  lemma BinIndexAtMin(min: real, max: real, bins: nat, eps: real)
    requires min <= max && 0.0 < eps
    ensures BinIndex(min, min, max, bins, eps) == 0
  {
  }

  /**
   * A range of one value (`max == min`): the widened divisor is `eps`, not
   * zero, and the value lands in bin 0.
   */
  lemma DegenerateRange(v: real, bins: nat, eps: real)
    requires 0.0 < eps
    ensures WidenedSpan(v, v, eps) == eps
    ensures BinIndex(v, v, v, bins, eps) == 0
  {
  }

  /** `get_bin_index` is monotone in the value. */
  lemma {:induction false} BinIndexMonotone(x: real, y: real, min: real, max: real, bins: nat, eps: real)
    requires min <= max && 0.0 < eps && x <= y
    ensures BinIndex(x, min, max, bins, eps) <= BinIndex(y, min, max, bins, eps)
  {
    var k := BinIndex(x, min, max, bins, eps);
    var j := BinIndex(y, min, max, bins, eps);
    if min < x {
      var d := WidenedSpan(min, max, eps);
      BinIndexIsSlice(x, min, max, bins, eps, k);
      BinIndexIsSlice(y, min, max, bins, eps, j);
      SlicesOrdered(k, j, d, x - min, y - min, bins as real);
    }
  }

  /**
   * Slice `k` holds `a * b` and slice `j` holds `c * b`; with `a <= c` and
   * `b >= 0`, `k <= j`.
   */
  lemma SlicesOrdered(k: nat, j: nat, d: real, a: real, c: real, b: real)
    requires 0.0 < d && a <= c && 0.0 <= b
    requires k as real * d <= a * b && c * b < (j + 1) as real * d
    ensures k <= j
  {
    assert c * b - a * b == (c - a) * b;
    ScaleOrder(k as real, (j + 1) as real, d, k as real * d, (j + 1) as real * d);
  }

  /**
   * A value exactly on the right edge of bin `k - 1` (the point
   * `min + k * width`) falls into bin `k - 1`, not `k`, because the divisor is
   * widened past `max`; with `k == bins` this is the maximum landing in the
   * last bin. It needs `eps` small: `(k - 1) * eps <= max - min`.
   */
  lemma {:induction false} BinIndexOnEdge(min: real, max: real, bins: nat, eps: real, k: nat)
    requires min < max && 0.0 < eps && 1 <= k <= bins
    requires (k - 1) as real * eps <= max - min
    ensures BinIndex(min + k as real * BinWidth(min, max, bins), min, max, bins, eps) == k - 1
  {
    var x := min + k as real * BinWidth(min, max, bins);
    EdgeInSlice(min, max, bins, eps, k);
    IndexOfSlice(x, min, max, bins, eps, k - 1);
  }

  /** A value at or above `min` in slice `k` has index `k`. */
  lemma IndexOfSlice(x: real, min: real, max: real, bins: nat, eps: real, k: nat)
    requires min <= max && 0.0 < eps && min <= x
    requires k as real * WidenedSpan(min, max, eps) <= (x - min) * bins as real < (k + 1) as real * WidenedSpan(min, max, eps)
    ensures BinIndex(x, min, max, bins, eps) == k
  {
    BinIndexIsSlice(x, min, max, bins, eps, k);
  }

  /** The arithmetic of `BinIndexOnEdge`: the edge point lies in slice `k - 1`. */
  lemma EdgeInSlice(min: real, max: real, bins: nat, eps: real, k: nat)
    requires min < max && 0.0 < eps && 1 <= k <= bins
    requires (k - 1) as real * eps <= max - min
    ensures min <= min + k as real * BinWidth(min, max, bins)
    ensures var x := min + k as real * BinWidth(min, max, bins);
      (k - 1) as real * WidenedSpan(min, max, eps) <= (x - min) * bins as real < ((k - 1) + 1) as real * WidenedSpan(min, max, eps)
  {
    var w := BinWidth(min, max, bins);
    var x := min + k as real * w;
    EdgeSlice(max - min, w, bins as real, eps, WidenedSpan(min, max, eps), (k - 1) as real, ((k - 1) + 1) as real, x - min);
  }

  /**
   * With a range `r > 0` cut into `b` bins of width `w`, the edge `e` after
   * `j + 1` bins, scaled by `b`, lies in slice `j` of the widened span `d = r + eps`
   * when `j * eps <= r`.
   */
  lemma EdgeSlice(r: real, w: real, b: real, eps: real, d: real, j: real, j1: real, e: real)
    requires 0.0 < r && 0.0 < eps && 0.0 <= j && j1 == j + 1.0 && j1 <= b
    requires w * b == r && j * eps <= r && d == r + eps && e == j1 * w
    ensures 0.0 <= e
    ensures j * d <= e * b < j1 * d
  {
    ProductPositive(w, b, r);
    assert e * b == j1 * r by {
      assert e * b == j1 * (w * b);
    }
    Distribute(j, r, eps, d);
    Distribute(j1, r, eps, d);
    Distribute(r, j, 1.0, j1);
    ProductPositive(j1, eps, j1 * eps);
  }

  /** `x * (y + z)`, written `x * s` with `s == y + z`, is `x * y + x * z`. */
  lemma Distribute(x: real, y: real, z: real, s: real)
    requires s == y + z
    ensures x * s == x * y + x * z
    ensures s * x == y * x + z * x
  {
  }

  /** With `x * y == p`, `p > 0` and `y > 0` make `x > 0`, and `x, y > 0` make `p > 0`. */
  lemma ProductPositive(x: real, y: real, p: real)
    requires x * y == p
    ensures 0.0 < p && 0.0 < y ==> 0.0 < x
    ensures 0.0 < x && 0.0 < y ==> 0.0 < p
  {
  }

  /**
   * The maximum lands in the last bin exactly when `eps` is small enough:
   * `(bins - 1) * eps <= max - min`. For the next float above `max` this holds
   * whenever a bin is wider than `eps`.
   */
  lemma {:induction false} BinIndexAtMax(min: real, max: real, bins: nat, eps: real)
    requires min <= max && 0.0 < eps && 1 <= bins
    ensures BinIndex(max, min, max, bins, eps) == bins - 1 <==> (bins - 1) as real * eps <= max - min
  {
    BinIndexIsSlice(max, min, max, bins, eps, bins - 1);
    LastSlice(max - min, eps, WidenedSpan(min, max, eps), bins as real, ((bins - 1) + 1) as real, (bins - 1) as real);
  }

  /**
   * The arithmetic of `BinIndexAtMax`: with `d = r + eps` and `b = b1 + 1`,
   * `r * b` is below `b * d`, and at least `b1 * d` exactly when `b1 * eps <= r`.
   * `b` and `b2` are the same number passed twice (`bins` and `(bins - 1) + 1`),
   * so that the products stay opaque terms for the solver, as in `ScaleOrder`.
   */
  lemma LastSlice(r: real, eps: real, d: real, b: real, b2: real, b1: real)
    requires 0.0 < eps && d == r + eps && b == b2 && b2 == b1 + 1.0 && 1.0 <= b
    ensures b1 * d <= r * b <==> b1 * eps <= r
    ensures r * b < b2 * d
  {
    Distribute(b1, r, eps, d);
    Distribute(b2, r, eps, d);
    Distribute(r, b1, 1.0, b);
    ProductPositive(b2, eps, b2 * eps);
  }

  /**
   * The cases of the source's tests that exact arithmetic reproduces: `0.0`,
   * `9.9` and `5.0` in `[0, 10]` with 10 bins, and `-1.0` in `[-1, 1]` with 20
   * bins. `5.0` is an interior edge and goes to the lower bin 4.
   */
  lemma BinIndexExamples(eps: real)
    requires 0.0 < eps <= 1.0
    ensures BinIndex(0.0, 0.0, 10.0, 10, eps) == 0
    ensures BinIndex(9.9, 0.0, 10.0, 10, eps) == 9
    ensures BinIndex(5.0, 0.0, 10.0, 10, eps) == 4
    ensures BinIndex(-1.0, -1.0, 1.0, 20, eps) == 0
  {
    BinIndexIsSlice(9.9, 0.0, 10.0, 10, eps, 9);
    BinIndexOnEdge(0.0, 10.0, 10, eps, 5);
    assert 0.0 + 5 as real * BinWidth(0.0, 10.0, 10) == 5.0;
  }

  /**
   * Width of one bin, `(max - min) / bins`: `bins` bins of this width span the
   * range exactly.
   */
  function BinWidth(min: real, max: real, bins: nat): (w: real)
    requires 1 <= bins
    ensures w * bins as real == max - min
  {
    (max - min) / bins as real
  }

  /** Left edge of bin `index`: `min + index * width`. */
  function BinStart(index: nat, min: real, max: real, bins: nat): real
    requires 1 <= bins
  {
    min + index as real * BinWidth(min, max, bins)
  }

  /**
   * `get_bin_label`: the midpoint of the bin's interval. The label of a bin of
   * the histogram lies within `[min, max]`.
   */
  function BinLabel(index: nat, min: real, max: real, bins: nat): (mid: real)
    requires 1 <= bins
    ensures 2.0 * mid == BinStart(index, min, max, bins) + BinStart(index + 1, min, max, bins)
    ensures min <= max && index < bins ==> min <= mid <= max
  {
    var w := BinWidth(min, max, bins);
    assert min <= max ==> 0.0 <= w;
    assert min <= max && index < bins ==> min + (index + 1) as real * w <= max by {
      if min <= max && index < bins {
        assert bins as real * w - (index + 1) as real * w == (bins - index - 1) as real * w;
        assert 0.0 <= (bins - index - 1) as real * w;
      }
    }
    index as real * w + min + w / 2.0
  }

  /** Consecutive labels are one bin width apart. */
  lemma BinLabelStep(index: nat, min: real, max: real, bins: nat)
    requires 1 <= bins
    ensures BinLabel(index + 1, min, max, bins) - BinLabel(index, min, max, bins) == BinWidth(min, max, bins)
  {
  }

  /**
   * Labels `i` and `bins - 1 - i` are symmetric about the centre of the range;
   * in particular the first and the last label.
   */
  lemma {:induction false} BinLabelsSymmetric(i: nat, min: real, max: real, bins: nat)
    requires i < bins
    ensures BinLabel(i, min, max, bins) + BinLabel(bins - 1 - i, min, max, bins) == min + max
  {
    var w := BinWidth(min, max, bins);
    assert BinLabel(i, min, max, bins) + BinLabel(bins - 1 - i, min, max, bins)
      == 2.0 * min + (bins as real) * w;
  }

  /** The label cases of the source's tests. */
  lemma BinLabelExamples()
    ensures BinLabel(0, 0.0, 10.0, 10) == 0.5
    ensures BinLabel(9, 0.0, 10.0, 10) == 9.5
    ensures BinLabel(5, 0.0, 10.0, 10) == 5.5
    ensures BinLabel(0, -1.0, 1.0, 20) == -0.95
    ensures BinLabel(19, -1.0, 1.0, 20) == 0.95
  {
  }

  /**
   * Index and label agree: the label of bin `i` is binned into bin `i`,
   * provided `eps` is small (`2 * i * eps <= max - min`).
   */
  lemma {:induction false} BinLabelInOwnBin(i: nat, min: real, max: real, bins: nat, eps: real)
    requires min < max && 0.0 < eps && i < bins
    requires 2.0 * i as real * eps <= max - min
    ensures BinIndex(BinLabel(i, min, max, bins), min, max, bins, eps) == i
  {
    var w := BinWidth(min, max, bins);
    var x := BinLabel(i, min, max, bins);
    var d := WidenedSpan(min, max, eps);
    var r := max - min;
    assert (x - min) * bins as real == (i as real + 0.5) * r by {
      assert x - min == (i as real + 0.5) * w;
      assert (x - min) * bins as real == (i as real + 0.5) * (w * bins as real);
    }
    assert i as real * d <= (i as real + 0.5) * r by {
      assert (i as real + 0.5) * r - i as real * d == 0.5 * r - i as real * eps;
    }
    assert (i as real + 0.5) * r < (i + 1) as real * d by {
      assert (i + 1) as real * d - (i as real + 0.5) * r == 0.5 * r + (i + 1) as real * eps;
    }
    BinIndexIsSlice(x, min, max, bins, eps, i);
  }
}
