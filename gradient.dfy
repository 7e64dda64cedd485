/** The diagonal multi-stop gradient, `diagonal_gradient`
    (generate_qr.py:31-52), in exact integer arithmetic.

    For a w x h raster and n+1 colour stops, pixel (x, y) sits at diagonal
    position dist = (x+y)*n/(w+h). With num = (x+y)*n and den = w+h the
    segment is num / den (clamped to n-1) and the fractional part of dist
    is rem/den with rem = num - segment*den. */
module Gradient {
  import opened Pixels

  /** Python's `int()` on the rational a/d: truncation toward zero. */
  function TruncDiv(a: int, d: nat): int
    requires d > 0
  {
    if a >= 0 then a / d else -((-a) / d)
  }

  /** `int(dist)` clamped to n-1, with dist = t*n/den. */
  function Segment(t: nat, n: nat, den: nat): nat
    requires den > 0 && n >= 1
  {
    var s := (t * n) / den;
    if s >= n then n - 1 else s
  }

  /** `int(c1 + (c2 - c1) * ratio)` with ratio = rem/den. */
  function Lerp(c1: int, c2: int, rem: int, den: nat): int
    requires den > 0
  {
    TruncDiv(c1 * den + (c2 - c1) * rem, den)
  }

  /** The colour the gradient gives pixel (x, y) of a w x h raster. */
  function PixelAt(colors: seq<Rgb>, w: nat, h: nat, x: nat, y: nat): Rgb
    requires |colors| >= 2 && x < w && y < h
  {
    var n := |colors| - 1;
    var den := w + h;
    var seg := Segment(x + y, n, den);
    var rem := (x + y) * n - seg * den;
    var c1 := colors[seg];
    var c2 := colors[seg + 1];
    Rgb(Lerp(c1.r, c2.r, rem, den), Lerp(c1.g, c2.g, rem, den), Lerp(c1.b, c2.b, rem, den))
  }

  /** The segment of a pixel inside the raster: the clamp never fires, the
      segment is floor(dist) and lies in [0, n-1], and the ratio rem/den is
      in [0, 1). */
  lemma SegmentInRange(t: nat, n: nat, den: nat)
    requires n >= 1 && t < den
    ensures Segment(t, n, den) == (t * n) / den
    ensures 0 <= Segment(t, n, den) <= n - 1
    ensures 0 <= t * n - Segment(t, n, den) * den < den
  {
    var s := (t * n) / den;
    assert t * n < n * den by {
      MulStrict(t, den, n);
    }
    DivBelow(t * n, n, den);
    assert s * den <= t * n < (s + 1) * den;
  }

  lemma MulStrict(a: nat, b: nat, n: nat)
    requires a < b && n >= 1
    ensures a * n < n * b
  {
  }

  lemma DivBelow(a: nat, n: nat, den: nat)
    requires den > 0 && a < n * den
    ensures a / den < n
  {
    assert (a / den) * den <= a;
    MulCancelLess(a / den, n, den);
  }

  lemma MulCancelLess(x: int, y: int, d: nat)
    requires d > 0 && x * d < y * d
    ensures x < y
  {
  }

  /** Truncation of a value lying between two integers stays between them. */
  lemma TruncBetween(a: int, d: nat, lo: int, hi: int)
    requires d > 0 && lo * d <= a <= hi * d
    ensures lo <= TruncDiv(a, d) <= hi
  {
    if a >= 0 {
      FloorBetween(a, d, lo, hi);
    } else {
      FloorBetween(-a, d, -hi, -lo);
    }
  }

  lemma FloorBetween(a: int, d: nat, lo: int, hi: int)
    requires d > 0 && lo * d <= a <= hi * d
    ensures lo <= a / d <= hi
  {
    var q := a / d;
    assert q * d <= a < (q + 1) * d;
    MulCancelLess(lo - 1, q, d);
    MulCancelLess(q, hi + 1, d);
  }

  /** Each interpolated channel lies between the two stops it interpolates. */
  lemma LerpBetween(c1: int, c2: int, rem: int, den: nat)
    requires den > 0 && 0 <= rem < den
    ensures c1 <= c2 ==> c1 <= Lerp(c1, c2, rem, den) <= c2
    ensures c2 <= c1 ==> c2 <= Lerp(c1, c2, rem, den) <= c1
  {
    var a := c1 * den + (c2 - c1) * rem;
    if c1 <= c2 {
      StepBetween(c1, c2 - c1, rem, den);
      TruncBetween(a, den, c1, c2);
    } else {
      StepBetween(c2, c1 - c2, den - rem, den);
      assert a == c2 * den + (c1 - c2) * (den - rem);
      TruncBetween(a, den, c2, c1);
    }
  }

  /** lo*d <= lo*d + k*r <= (lo + k)*d for 0 <= k and 0 <= r <= d. */
  lemma StepBetween(lo: int, k: int, r: int, d: nat)
    requires k >= 0 && 0 <= r <= d
    ensures lo * d <= lo * d + k * r <= (lo + k) * d
  {
    MulNonneg(k, r);
    MulNonneg(k, d - r);
    assert (lo + k) * d == lo * d + k * r + k * (d - r);
  }

  predicate Between(v: int, a: int, b: int) {
    (a <= v <= b) || (b <= v <= a)
  }

  /** Every gradient pixel inside the raster lies, channel by channel,
      between the stops of its segment, which is floor(dist) in [0, n-1];
      so with byte stops every pixel is a byte colour. */
  lemma PixelBetweenStops(colors: seq<Rgb>, w: nat, h: nat, x: nat, y: nat)
    requires |colors| >= 2 && x < w && y < h
    ensures var seg := ((x + y) * (|colors| - 1)) / (w + h);
      seg <= |colors| - 2 &&
      Between(PixelAt(colors, w, h, x, y).r, colors[seg].r, colors[seg + 1].r) &&
      Between(PixelAt(colors, w, h, x, y).g, colors[seg].g, colors[seg + 1].g) &&
      Between(PixelAt(colors, w, h, x, y).b, colors[seg].b, colors[seg + 1].b)
    ensures (forall i :: 0 <= i < |colors| ==> IsRgbByte(colors[i])) ==> IsRgbByte(PixelAt(colors, w, h, x, y))
  {
    var n, den := |colors| - 1, w + h;
    SegmentInRange(x + y, n, den);
    var seg := Segment(x + y, n, den);
    var rem := (x + y) * n - seg * den;
    var c1, c2 := colors[seg], colors[seg + 1];
    LerpBetween(c1.r, c2.r, rem, den);
    LerpBetween(c1.g, c2.g, rem, den);
    LerpBetween(c1.b, c2.b, rem, den);
  }

  /** With non-negative stops, truncation is floor: the channel is
      c1 + ((c2 - c1) * rem) / den with Dafny's (floor) division. */
  lemma LerpIsFloor(c1: int, c2: int, rem: int, den: nat)
    requires den > 0 && 0 <= rem < den && c1 >= 0 && c2 >= 0
    ensures Lerp(c1, c2, rem, den) == c1 + ((c2 - c1) * rem) / den
  {
    var a := c1 * den + (c2 - c1) * rem;
    assert a == c1 * (den - rem) + c2 * rem;
    MulNonneg(c1, den - rem);
    MulNonneg(c2, rem);
    DivShift(c1, (c2 - c1) * rem, den);
  }

  lemma MulNonneg(a: int, b: int)
    requires a >= 0 && b >= 0
    ensures a * b >= 0
  {
  }

  lemma DivShift(c: int, b: int, d: nat)
    requires d > 0
    ensures (c * d + b) / d == c + b / d
  {
    var q, r := b / d, b % d;
    assert c * d + b == (c + q) * d + r;
    DivUnique(c * d + b, d, c + q, r);
  }

  /** The quotient is determined by any decomposition with a remainder in [0, d). */
  lemma DivUnique(a: int, d: nat, q: int, r: int)
    requires d > 0 && 0 <= r < d && a == q * d + r
    ensures a / d == q
  {
    var q0, r0 := a / d, a % d;
    assert a == q0 * d + r0 && 0 <= r0 < d;
    MulCancelLess(q0, q + 1, d);
    MulCancelLess(q, q0 + 1, d);
  }

  /** Pixel (0, 0) is the first stop. */
  lemma FirstPixel(colors: seq<Rgb>, w: nat, h: nat)
    requires |colors| >= 2 && w > 0 && h > 0
    ensures PixelAt(colors, w, h, 0, 0) == colors[0]
  {
    var den := w + h;
    assert Segment(0, |colors| - 1, den) == 0;
    var c := colors[0];
    assert Lerp(c.r, colors[1].r, 0, den) == c.r by { TruncExact(c.r, den); }
    assert Lerp(c.g, colors[1].g, 0, den) == c.g by { TruncExact(c.g, den); }
    assert Lerp(c.b, colors[1].b, 0, den) == c.b by { TruncExact(c.b, den); }
  }

  lemma TruncExact(c: int, d: nat)
    requires d > 0
    ensures TruncDiv(c * d, d) == c
  {
    if c >= 0 {
      DivUnique(c * d, d, c, 0);
    } else {
      assert -(c * d) == (-c) * d;
      DivUnique((-c) * d, d, -c, 0);
    }
  }

  /** A palette whose stops are all one colour (the "Black" palette) paints
      every pixel in that colour. */
  lemma UniformPalette(colors: seq<Rgb>, w: nat, h: nat, x: nat, y: nat)
    requires |colors| >= 2 && x < w && y < h
    requires forall i :: 0 <= i < |colors| ==> colors[i] == colors[0]
    ensures PixelAt(colors, w, h, x, y) == colors[0]
  {
    var n, den := |colors| - 1, w + h;
    SegmentInRange(x + y, n, den);
    var seg := Segment(x + y, n, den);
    var rem := (x + y) * n - seg * den;
    var c := colors[0];
    assert colors[seg] == c && colors[seg + 1] == c;
    LerpBetween(c.r, c.r, rem, den);
    LerpBetween(c.g, c.g, rem, den);
    LerpBetween(c.b, c.b, rem, den);
  }

  /** The bottom-right pixel of a raster with w + h > 2n lies in the last
      segment at ratio 1 - 2n/(w+h): the ratio never reaches 1 (nor does the
      float code's). Each channel is within |c_n - c_(n-1)| * 2n/(w+h) + 1
      of the last stop, and may equal it. */
  lemma LastPixel(colors: seq<Rgb>, w: nat, h: nat)
    requires |colors| >= 2 && w > 0 && h > 0
    requires w + h > 2 * (|colors| - 1)
    ensures var n := |colors| - 1;
      Segment(w - 1 + h - 1, n, w + h) == n - 1 &&
      (w - 1 + h - 1) * n - (n - 1) * (w + h) == w + h - 2 * n
    ensures var n := |colors| - 1;
      forall ch :: 0 <= ch < 3 ==>
        (w + h) * Abs(Channel(PixelAt(colors, w, h, w - 1, h - 1), ch) - Channel(colors[n], ch))
          <= 2 * n * Abs(Channel(colors[n], ch) - Channel(colors[n - 1], ch)) + (w + h)
  {
    var n, den := |colors| - 1, w + h;
    var t := w - 1 + h - 1;
    assert t * n == (n - 1) * den + (den - 2 * n) by {
      assert t == den - 2;
      assert (den - 2) * n == den * n - 2 * n;
      assert (n - 1) * den == den * n - den;
    }
    DivUnique(t * n, den, n - 1, den - 2 * n);
    forall ch | 0 <= ch < 3
      ensures den * Abs(Channel(PixelAt(colors, w, h, w - 1, h - 1), ch) - Channel(colors[n], ch))
          <= 2 * n * Abs(Channel(colors[n], ch) - Channel(colors[n - 1], ch)) + den
    {
      ChannelOfPixel(colors, w, h, w - 1, h - 1, ch);
      LastChannel(colors, ch, den, t * n);
    }
  }

  /** In the last segment, at scaled position (n-1)*den + r with r = den - 2n,
      the truncated channel is within |slope| * 2n / den + 1 of the last stop. */
  lemma LastChannel(colors: seq<Rgb>, ch: nat, den: nat, v: nat)
    requires |colors| >= 2 && den > 2 * (|colors| - 1)
    requires v == (|colors| - 2) * den + (den - 2 * (|colors| - 1))
    requires v / den == |colors| - 2
    ensures var n := |colors| - 1;
      den * Abs(TruncDiv(Scaled(colors, ch, den, v), den) - Channel(colors[n], ch))
        <= 2 * n * Abs(Channel(colors[n], ch) - Channel(colors[n - 1], ch)) + den
  {
    var n := |colors| - 1;
    var c0, c1 := Channel(colors[n - 1], ch), Channel(colors[n], ch);
    var slope := c1 - c0;
    var a := Scaled(colors, ch, den, v);
    assert a == c0 * den + slope * (den - 2 * n);
    var b := c1 * den;
    assert b - a == slope * (2 * n) by {
      assert b == c0 * den + slope * den;
      assert slope * den - slope * (den - 2 * n) == slope * (2 * n);
    }
    assert Abs(b - a) == 2 * n * Abs(slope) by {
      if slope < 0 {
        assert -(slope * (2 * n)) == 2 * n * (-slope);
      } else {
        assert slope * (2 * n) == 2 * n * slope;
      }
    }
    TruncExact(c1, den);
    TruncDiffBound(a, b, den);
  }

  // Continuity of the gradient along the diagonal.

  function Abs(v: int): nat {
    if v < 0 then -v else v
  }

  /** Channel 0, 1 or 2 (red, green, blue) of a colour. */
  function Channel(c: Rgb, ch: nat): int {
    if ch == 0 then c.r else if ch == 1 then c.g else c.b
  }

  /** The interpolated channel, before truncation and scaled by den, at
      scaled diagonal position v: the piecewise-linear function through the
      points (k*den, c_k*den). A pixel (x, y) sits at v = (x+y)*n. */
  function Scaled(colors: seq<Rgb>, ch: nat, den: nat, v: nat): int
    requires |colors| >= 2 && den > 0
  {
    var n := |colors| - 1;
    var k := if v / den >= n then n - 1 else v / den;
    Channel(colors[k], ch) * den + (Channel(colors[k + 1], ch) - Channel(colors[k], ch)) * (v - k * den)
  }

  /** No two adjacent stops differ by more than M in channel ch. */
  predicate StepsBounded(colors: seq<Rgb>, ch: nat, M: nat) {
    forall k :: 0 <= k < |colors| - 1 ==> Abs(Channel(colors[k + 1], ch) - Channel(colors[k], ch)) <= M
  }

  /** Each channel of a gradient pixel is the truncation of the scaled
      piecewise-linear value at its diagonal position. */
  lemma ChannelOfPixel(colors: seq<Rgb>, w: nat, h: nat, x: nat, y: nat, ch: nat)
    requires |colors| >= 2 && x < w && y < h
    ensures Channel(PixelAt(colors, w, h, x, y), ch) == TruncDiv(Scaled(colors, ch, w + h, (x + y) * (|colors| - 1)), w + h)
  {
    var n, den := |colors| - 1, w + h;
    var v := (x + y) * n;
    var k := Segment(x + y, n, den);
    assert k == (if v / den >= n then n - 1 else v / den);
    var c1, c2 := colors[k], colors[k + 1];
    var rem := v - k * den;
    assert Scaled(colors, ch, den, v) == Channel(c1, ch) * den + (Channel(c2, ch) - Channel(c1, ch)) * rem;
    assert Channel(PixelAt(colors, w, h, x, y), ch) == Lerp(Channel(c1, ch), Channel(c2, ch), rem, den);
  }

  /** Inside segment q < n, at offset r, the scaled value is c_q*den + slope*r. */
  lemma ScaledAt(colors: seq<Rgb>, ch: nat, den: nat, v: nat, q: nat, r: nat)
    requires |colors| >= 2 && den > 0 && q < |colors| - 1 && r < den && v == q * den + r
    ensures Scaled(colors, ch, den, v)
      == Channel(colors[q], ch) * den + (Channel(colors[q + 1], ch) - Channel(colors[q], ch)) * r
  {
    DivUnique(v, den, q, r);
  }

  /** At the end of the last segment q = n-1 the scaled value is the last stop. */
  lemma ScaledAtEnd(colors: seq<Rgb>, ch: nat, den: nat, v: nat, q: nat)
    requires |colors| >= 2 && den > 0 && q + 1 == |colors| - 1 && v == q * den + den
    ensures Scaled(colors, ch, den, v) == Channel(colors[q + 1], ch) * den
  {
    assert (q + 1) * den == q * den + den;
    DivUnique(v, den, q + 1, 0);
    var c0, c1 := Channel(colors[q], ch), Channel(colors[q + 1], ch);
    assert c0 * den + (c1 - c0) * den == c1 * den;
  }

  /** The arithmetic of one step: within a segment, and onto the next stop. */
  lemma LinearStep(c0: int, c1: int, den: nat, r: int)
    ensures (c0 * den + (c1 - c0) * (r + 1)) - (c0 * den + (c1 - c0) * r) == c1 - c0
    ensures c1 * den - (c0 * den + (c1 - c0) * (den - 1)) == c1 - c0
  {
    assert (c1 - c0) * (r + 1) == (c1 - c0) * r + (c1 - c0);
    assert (c1 - c0) * (den - 1) == (c1 - c0) * den - (c1 - c0);
    assert (c1 - c0) * den == c1 * den - c0 * den;
  }

  /** One step inside a segment moves the scaled value by the slope. */
  lemma StepInside(colors: seq<Rgb>, ch: nat, den: nat, v: nat, q: nat, r: nat)
    requires |colors| >= 2 && den > 0 && q < |colors| - 1 && r + 1 < den && v == q * den + r
    ensures Scaled(colors, ch, den, v + 1) - Scaled(colors, ch, den, v)
      == Channel(colors[q + 1], ch) - Channel(colors[q], ch)
  {
    ScaledAt(colors, ch, den, v, q, r);
    ScaledAt(colors, ch, den, v + 1, q, r + 1);
    LinearStep(Channel(colors[q], ch), Channel(colors[q + 1], ch), den, r);
  }

  /** The step onto the next stop moves the scaled value by the slope of the
      segment it leaves: the function is continuous at the stops. */
  lemma StepAcross(colors: seq<Rgb>, ch: nat, den: nat, v: nat, q: nat)
    requires |colors| >= 2 && den > 0 && q + 1 < |colors| - 1 && v == q * den + (den - 1)
    ensures Scaled(colors, ch, den, v + 1) - Scaled(colors, ch, den, v)
      == Channel(colors[q + 1], ch) - Channel(colors[q], ch)
  {
    ScaledAt(colors, ch, den, v, q, den - 1);
    ScaledAt(colors, ch, den, v + 1, q + 1, 0);
    LinearStep(Channel(colors[q], ch), Channel(colors[q + 1], ch), den, den - 1);
  }

  /** The last step reaches the last stop. */
  lemma StepToEnd(colors: seq<Rgb>, ch: nat, den: nat, v: nat, q: nat)
    requires |colors| >= 2 && den > 0 && q + 1 == |colors| - 1 && v == q * den + (den - 1)
    ensures Scaled(colors, ch, den, v + 1) - Scaled(colors, ch, den, v)
      == Channel(colors[q + 1], ch) - Channel(colors[q], ch)
  {
    ScaledAt(colors, ch, den, v, q, den - 1);
    ScaledAtEnd(colors, ch, den, v + 1, q);
    LinearStep(Channel(colors[q], ch), Channel(colors[q + 1], ch), den, den - 1);
  }

  /** Hence one step moves the value by at most M. */
  lemma ScaledStep(colors: seq<Rgb>, ch: nat, den: nat, v: nat, M: nat)
    requires |colors| >= 2 && den > 0 && v + 1 <= (|colors| - 1) * den
    requires StepsBounded(colors, ch, M)
    ensures Abs(Scaled(colors, ch, den, v + 1) - Scaled(colors, ch, den, v)) <= M
  {
    var n := |colors| - 1;
    var q := v / den;
    var r := v - q * den;
    DivBelow(v, n, den);
    if r + 1 < den {
      StepInside(colors, ch, den, v, q, r);
    } else if q + 1 < n {
      StepAcross(colors, ch, den, v, q);
    } else {
      StepToEnd(colors, ch, den, v, q);
    }
  }

  /** d steps move the value by at most M*d. */
  lemma {:induction false} ScaledRange(colors: seq<Rgb>, ch: nat, den: nat, v: nat, d: nat, M: nat)
    requires |colors| >= 2 && den > 0 && v + d <= (|colors| - 1) * den
    requires StepsBounded(colors, ch, M)
    ensures Abs(Scaled(colors, ch, den, v + d) - Scaled(colors, ch, den, v)) <= M * d
  {
    if d > 0 {
      ScaledRange(colors, ch, den, v, d - 1, M);
      ScaledStep(colors, ch, den, v + d - 1, M);
      assert M * d == M * (d - 1) + M;
    }
  }

  /** Truncation toward zero: d*q lies within d of a, on a's side of zero. */
  lemma TruncNear(a: int, d: nat)
    requires d > 0
    ensures a >= 0 ==> 0 <= TruncDiv(a, d) && a - d < d * TruncDiv(a, d) <= a
    ensures a < 0 ==> TruncDiv(a, d) <= 0 && a <= d * TruncDiv(a, d) < a + d
  {
    if a < 0 {
      var p := (-a) / d;
      FloorNear(-a, d);
      assert d * (-p) == -(d * p);
    } else {
      FloorNear(a, d);
    }
  }

  lemma FloorNear(a: nat, d: nat)
    requires d > 0
    ensures 0 <= a / d && a - d < d * (a / d) <= a
  {
    assert a == d * (a / d) + a % d;
  }

  /** Two values at most |b - a| apart truncate to integers at most
      |b - a|/d + 1 apart. */
  lemma TruncDiffBound(a: int, b: int, d: nat)
    requires d > 0
    ensures d * Abs(TruncDiv(b, d) - TruncDiv(a, d)) <= Abs(b - a) + d
  {
    var qa, qb := TruncDiv(a, d), TruncDiv(b, d);
    TruncNear(a, d);
    TruncNear(b, d);
    if qb >= qa {
      assert d * (qb - qa) == d * qb - d * qa;
    } else {
      assert d * (qa - qb) == d * qa - d * qb;
    }
  }

  /** One diagonal step changes a channel by at most n*M/den + 1. */
  lemma ChannelContinuity(colors: seq<Rgb>, ch: nat, den: nat, t: nat, M: nat)
    requires |colors| >= 2 && den > 0 && t + 1 <= den
    requires StepsBounded(colors, ch, M)
    ensures var n := |colors| - 1;
      den * Abs(TruncDiv(Scaled(colors, ch, den, (t + 1) * n), den) - TruncDiv(Scaled(colors, ch, den, t * n), den))
        <= n * M + den
  {
    var n := |colors| - 1;
    assert (t + 1) * n == t * n + n;
    assert (t + 1) * n <= den * n by {
      MulLe(t + 1, den, n);
    }
    ScaledRange(colors, ch, den, t * n, n, M);
    TruncDiffBound(Scaled(colors, ch, den, t * n), Scaled(colors, ch, den, (t + 1) * n), den);
    assert M * n == n * M;
  }

  lemma MulLe(a: nat, b: nat, n: nat)
    requires a <= b
    ensures a * n <= b * n
  {
  }

  /** The gradient is continuous along the diagonal: moving one pixel right
      or down changes each channel by at most n*M/(w+h) + 1, where M bounds
      the difference between adjacent stops in that channel. */
  lemma GradientContinuity(colors: seq<Rgb>, w: nat, h: nat, x1: nat, y1: nat, x2: nat, y2: nat, M: nat)
    requires |colors| >= 2 && x1 < w && y1 < h && x2 < w && y2 < h && x2 + y2 == x1 + y1 + 1
    requires StepsBounded(colors, 0, M) && StepsBounded(colors, 1, M) && StepsBounded(colors, 2, M)
    ensures forall ch :: 0 <= ch < 3 ==>
      (w + h) * Abs(Channel(PixelAt(colors, w, h, x2, y2), ch) - Channel(PixelAt(colors, w, h, x1, y1), ch))
        <= (|colors| - 1) * M + (w + h)
  {
    forall ch | 0 <= ch < 3
      ensures (w + h) * Abs(Channel(PixelAt(colors, w, h, x2, y2), ch) - Channel(PixelAt(colors, w, h, x1, y1), ch))
        <= (|colors| - 1) * M + (w + h)
    {
      PixelContinuity(colors, w, h, x1, y1, x2, y2, ch, M);
    }
  }

  lemma PixelContinuity(colors: seq<Rgb>, w: nat, h: nat, x1: nat, y1: nat, x2: nat, y2: nat, ch: nat, M: nat)
    requires |colors| >= 2 && x1 < w && y1 < h && x2 < w && y2 < h && x2 + y2 == x1 + y1 + 1
    requires StepsBounded(colors, ch, M)
    ensures (w + h) * Abs(Channel(PixelAt(colors, w, h, x2, y2), ch) - Channel(PixelAt(colors, w, h, x1, y1), ch))
      <= (|colors| - 1) * M + (w + h)
  {
    ChannelOfPixel(colors, w, h, x1, y1, ch);
    ChannelOfPixel(colors, w, h, x2, y2, ch);
    ChannelContinuity(colors, ch, w + h, x1 + y1, M);
  }

  /** The body of the inner loop of `diagonal_gradient`: the colour of
      pixel (x, y), computed as the source computes it. */
  method GradientPixel(colors: seq<Rgb>, w: nat, h: nat, x: nat, y: nat) returns (pixel: Rgb)
    requires |colors| >= 2 && x < w && y < h
    ensures pixel == PixelAt(colors, w, h, x, y)
  {
    var n := |colors| - 1;
    var num, den := (x + y) * n, w + h;
    var segment := num / den;
    if segment >= n {
      segment := n - 1;
    }
    assert segment == Segment(x + y, n, den);
    var rem := num - segment * den;
    var c1, c2 := colors[segment], colors[segment + 1];
    pixel := Rgb(Lerp(c1.r, c2.r, rem, den), Lerp(c1.g, c2.g, rem, den), Lerp(c1.b, c2.b, rem, den));
  }

  /** `diagonal_gradient(size, colors)`: fills a fresh w x h raster row by
      row, as the nested y/x loops of the source do. */
  method DiagonalGradient(w: nat, h: nat, colors: seq<Rgb>) returns (img: array2<Rgb>)
    requires |colors| >= 2
    ensures fresh(img)
    ensures img.Length0 == w && img.Length1 == h
    ensures forall x, y :: 0 <= x < w && 0 <= y < h ==> img[x, y] == PixelAt(colors, w, h, x, y)
  {
    img := new Rgb[w, h]((x, y) => Black);
    var y := 0;
    while y < h
      invariant 0 <= y <= h
      invariant forall i, j :: 0 <= i < w && 0 <= j < y ==> img[i, j] == PixelAt(colors, w, h, i, j)
    {
      var x := 0;
      while x < w
        invariant 0 <= x <= w
        invariant forall i, j :: 0 <= i < w && 0 <= j < y ==> img[i, j] == PixelAt(colors, w, h, i, j)
        invariant forall i :: 0 <= i < x ==> img[i, y] == PixelAt(colors, w, h, i, y)
      {
        var pixel := GradientPixel(colors, w, h, x, y);
        img[x, y] := pixel;
        x := x + 1;
      }
      y := y + 1;
    }
  }
}
