/** Scaling an image into the surface with its aspect kept: 16.16 fixed point, black bars. */
module Letterbox {
  import opened Outcomes

  type Pixel = seq<Byte> // four bytes, copied together

  const BLACK: Pixel := [0, 0, 0, 0]
  const ONE := 0x1_0000        // 1.0 in 16.16
  const UINT32 := 0x1_0000_0000

  function Max(a: nat, b: nat): nat {
    if a > b then a else b
  }

  /** Source pixels per destination pixel: the larger of the two fits. */
  function Scale(w: nat, h: nat, sw: nat, sh: nat): nat
    requires sw > 0 && sh > 0
  {
    Max(w * ONE / sw, h * ONE / sh)
  }

  /** The image's extent along one axis: truncated to 32 bits, then clamped to the surface. */
  function Extent(n: nat, f: nat, s: nat): (d: nat)
    requires f > 0
    ensures d <= s
  {
    var d := (n * ONE / f) % UINT32;
    if d > s then s else d
  }

  /** No quotient is truncated. */
  predicate NoOverflow(w: nat, h: nat, f: nat)
    requires f > 0
  {
    w * ONE / f < UINT32 && h * ONE / f < UINT32
  }

  function Origin(s: nat, d: nat): nat
    requires d <= s
  {
    (s - d) / 2
  }

  /** The fixed-point sample for destination coordinate `d`, before any clamp. */
  function Sample(d: nat, f: nat): nat {
    d * f / ONE
  }

  // ---- division facts ----

  lemma DivBounds(a: nat, b: nat)
    requires b > 0
    ensures a / b * b <= a < a / b * b + b
  {
  }

  lemma MulMono(a: nat, b: nat, c: nat)
    requires a <= b
    ensures a * c <= b * c
  {
  }

  lemma DivAtLeast(a: nat, b: nat, q: nat)
    requires b > 0 && q * b <= a
    ensures q <= a / b
  {
    DivBounds(a, b);
    if a / b + 1 <= q {
      MulMono(a / b + 1, q, b);
    }
  }

  lemma DivBelow(a: nat, b: nat, q: nat)
    requires b > 0 && a < q * b
    ensures a / b < q
  {
    DivBounds(a, b);
    if q <= a / b {
      MulMono(q, a / b, b);
    }
  }

  // ---- geometry ----

  /** Along the axis whose fit is the scale, the image is at least as long as the surface. */
  lemma FitReaches(n: nat, s: nat)
    requires s > 0 && n * ONE / s > 0
    ensures n * ONE / (n * ONE / s) >= s
  {
    var f := n * ONE / s;
    DivBounds(n * ONE, s);
    DivAtLeast(n * ONE, f, s);
  }

  /**
   * The scaled image lies inside the surface on both axes and fills it exactly
   * on one; the bars on either side differ by at most a pixel.
   */
  lemma Fits(w: nat, h: nat, sw: nat, sh: nat)
    requires sw > 0 && sh > 0 && Scale(w, h, sw, sh) > 0 && NoOverflow(w, h, Scale(w, h, sw, sh))
    ensures var f := Scale(w, h, sw, sh);
            var dw, dh := Extent(w, f, sw), Extent(h, f, sh);
            && dw <= sw && dh <= sh
            && (dw == sw || dh == sh)
            && var x0, y0 := Origin(sw, dw), Origin(sh, dh);
               && x0 + dw <= sw && 0 <= sw - dw - x0 - x0 <= 1
               && y0 + dh <= sh && 0 <= sh - dh - y0 - y0 <= 1
  {
    var f := Scale(w, h, sw, sh);
    if f == w * ONE / sw {
      FilledAlong(w, sw, f);
    } else {
      FilledAlong(h, sh, f);
    }
    Centred(sw, Extent(w, f, sw));
    Centred(sh, Extent(h, f, sh));
  }

  lemma FilledAlong(n: nat, s: nat, f: nat)
    requires s > 0 && f > 0 && f == n * ONE / s && n * ONE / f < UINT32
    ensures Extent(n, f, s) == s
  {
    FitReaches(n, s);
    var q := n * ONE / f;
    assert q % UINT32 == q;
  }

  lemma Centred(s: nat, d: nat)
    requires d <= s
    ensures Origin(s, d) + d <= s && 0 <= s - d - Origin(s, d) - Origin(s, d) <= 1
  {
  }

  /** Every sample falls inside the image, so the clamps never act. */
  lemma SampleInside(n: nat, f: nat, s: nat, d: nat)
    requires f > 0 && d < Extent(n, f, s)
    ensures Sample(d, f) < n
  {
    var q := n * ONE / f;
    ExtentBelow(n, f, s);
    DivBounds(n * ONE, f);
    MulMono(d + 1, q, f);
    assert (d + 1) * f == d * f + f;
    DivBelow(d * f, ONE, n);
  }

  lemma ExtentBelow(n: nat, f: nat, s: nat)
    requires f > 0
    ensures Extent(n, f, s) <= n * ONE / f
  {
    var q := n * ONE / f;
    assert q % UINT32 <= q;
  }

  /** Surfaces up to 2^31 pixels a side never overflow. */
  lemma SmallSurfacesFit(w: nat, h: nat, sw: nat, sh: nat)
    requires 0 < sw <= 0x8000_0000 && 0 < sh <= 0x8000_0000 && Scale(w, h, sw, sh) > 0
    ensures NoOverflow(w, h, Scale(w, h, sw, sh))
  {
    AxisFits(w, sw, Scale(w, h, sw, sh));
    AxisFits(h, sh, Scale(w, h, sw, sh));
  }

  lemma AxisFits(n: nat, s: nat, f: nat)
    requires 0 < s <= 0x8000_0000 && f > 0 && n * ONE / s <= f
    ensures n * ONE / f < UINT32
  {
    var q := n * ONE / s;
    DivBounds(n * ONE, s);
    // n * ONE < (q + 1) * s <= 2 * f * s
    MulMono(q + 1, 2 * f, s);
    assert (2 * f) * s == (2 * s) * f;
    DivBelow(n * ONE, f, 2 * s);
  }

  lemma Truncated(q: nat, s: nat)
    requires q < 2 * s && s < UINT32
    ensures q % UINT32 >= s <==> s <= q < UINT32
  {
    assert q >= UINT32 ==> q % UINT32 == q - UINT32;
  }

  /**
   * Exactly when the truncated extent is the surface's: the quotient reaches
   * the surface's length, which it does along the axis that sets the scale,
   * and fits 32 bits.
   */
  lemma AxisFilled(n: nat, s: nat, f: nat)
    requires 0 < s < UINT32 && f > 0 && n * ONE / s <= f
    ensures Extent(n, f, s) == s <==> s <= n * ONE / f < UINT32
  {
    var q := n * ONE / f;
    // q < 2 * s
    DivBounds(n * ONE, s);
    MulMono(n * ONE / s + 1, 2 * f, s);
    assert (2 * f) * s == (2 * s) * f;
    DivBelow(n * ONE, f, 2 * s);
    Truncated(q, s);
  }

  /**
   * The scaled image fills the surface on an axis if and only if that axis'
   * quotient reaches the surface and fits 32 bits; one of them reaches it.
   */
  lemma FillsExactly(w: nat, h: nat, sw: nat, sh: nat)
    requires 0 < sw < UINT32 && 0 < sh < UINT32 && Scale(w, h, sw, sh) > 0
    ensures var f := Scale(w, h, sw, sh);
            var qw, qh := w * ONE / f, h * ONE / f;
            && (sw <= qw || sh <= qh)
            && (Extent(w, f, sw) == sw <==> sw <= qw < UINT32)
            && (Extent(h, f, sh) == sh <==> sh <= qh < UINT32)
            && (Extent(w, f, sw) == sw || Extent(h, f, sh) == sh <==> sw <= qw < UINT32 || sh <= qh < UINT32)
  {
    var f := Scale(w, h, sw, sh);
    AxisFilled(w, sw, f);
    AxisFilled(h, sh, f);
    if f == w * ONE / sw {
      FitReaches(w, sw);
    } else {
      FitReaches(h, sh);
    }
  }

  /**
   * The overflow is met: these surfaces ask for a staging buffer of a quarter
   * megabyte and of one pixel, and the image, which would cover them, is given
   * no width; in the second case no height either.
   */
  lemma OverflowHidesImage()
    ensures var w, h, sw, sh := 0x1_0000, 1, 0xc000_0001, 0x1_0000;
            && Capacity(sw, sh) == 0x1_0000 && Scale(w, h, sw, sh) == 1 && w * ONE / 1 >= sw
            && Extent(w, 1, sw) == 0 && Extent(h, 1, sh) == sh
    ensures var w, h, sw, sh := 0x1_0000, 0x1_0000, 0xc000_0001, 0xc000_0001;
            && Capacity(sw, sh) == 1 && Scale(w, h, sw, sh) == 1 && w * ONE / 1 >= sw && h * ONE / 1 >= sh
            && Extent(w, 1, sw) == 0 && Extent(h, 1, sh) == 0
  {
  }

  // ---- the 32-bit staging buffer ----

  /** The buffer's bytes do not wrap around in a 32-bit size_t. */
  predicate Stageable(sw: nat, sh: nat) {
    sw * sh * 4 < UINT32
  }

  /** How many pixels the wrapped request for `sw * sh * 4` bytes holds. */
  function Capacity(sw: nat, sh: nat): nat {
    (sw * sh * 4) % UINT32 / 4
  }

  /** Where the code puts pixel `dx` of a row whose first pixel has index `start`; byte offsets wrap. */
  function Place(start: nat, dx: nat): nat {
    start * 4 % UINT32 / 4 + dx * 4 % UINT32 / 4
  }

  /** The pixel is written at its own index, inside the buffer. */
  predicate InPlace(start: nat, dx: nat, sw: nat, sh: nat) {
    Place(start, dx) == start + dx < Capacity(sw, sh)
  }

  predicate RowInPlace(start: nat, dw: nat, sw: nat, sh: nat) {
    forall dx :: 0 <= dx < dw ==> InPlace(start, dx, sw, sh)
  }

  /** The index of the first pixel of row `dy` of the scaled image. */
  function Start(sw: nat, sh: nat, dw: nat, dh: nat, dy: nat): nat
    requires dw <= sw && dh <= sh
  {
    (Origin(sh, dh) + dy) * sw + Origin(sw, dw)
  }

  /** Every pixel of the scaled image is. */
  ghost predicate AllInPlace(sw: nat, sh: nat, dw: nat, dh: nat)
    requires dw <= sw && dh <= sh
  {
    forall dy :: 0 <= dy < dh ==> RowInPlace(Start(sw, sh, dw, dh, dy), dw, sw, sh)
  }

  lemma PlaceSmall(start: nat, dx: nat)
    requires start * 4 < UINT32 && dx * 4 < UINT32
    ensures Place(start, dx) == start + dx
  {
  }

  lemma CapacityWhole(sw: nat, sh: nat)
    requires Stageable(sw, sh)
    ensures Capacity(sw, sh) == sw * sh
  {
  }

  /** A wrapped buffer holds less than half of the surface. */
  lemma CapacityHalf(sw: nat, sh: nat)
    requires !Stageable(sw, sh)
    ensures 2 * Capacity(sw, sh) < sw * sh && 4 * Capacity(sw, sh) < UINT32
  {
  }

  /** The last pixel of a centred rectangle that spans one axis lies in the surface's second half. */
  lemma LastInHalf(sw: nat, sh: nat, dw: nat, dh: nat)
    requires 0 < dw <= sw && 0 < dh <= sh && (dw == sw || dh == sh)
    ensures 2 * (Start(sw, sh, dw, dh, dh - 1) + dw) >= sw * sh
  {
    var y, x := Origin(sh, dh) + (dh - 1), Origin(sw, dw) + dw;
    assert 2 * x >= sw && 2 * (y + 1) >= sh;
    if dw == sw {
      assert y * sw + sw == (y + 1) * sw;
      MulMono(sh, 2 * (y + 1), sw);
      assert 2 * (y + 1) * sw == 2 * ((y + 1) * sw);
    } else {
      assert y == sh - 1;
      assert (sh - 1) * sw + sw == sh * sw;
      MulMono(1, sh, sw);
    }
  }

  /** On a surface longer than 2^31 that is more than a line, any rectangle's last pixel lies beyond 2^30. */
  lemma LastBeyond(sw: nat, sh: nat, dw: nat, dh: nat)
    requires 0 < dw < sw && 0 < dh < sh && (sw > 0x8000_0000 || sh > 0x8000_0000)
    ensures 4 * (Start(sw, sh, dw, dh, dh - 1) + dw) >= UINT32
  {
    var y, x := Origin(sh, dh) + (dh - 1), Origin(sw, dw) + dw;
    assert 2 * x >= sw && 2 * (y + 1) >= sh;
    if sw > 0x8000_0000 {
      MulMono(0, y, sw);
      assert y * sw >= 0;
    } else {
      MulMono(2, sw, y);
      assert y * sw >= 2 * y;
    }
  }

  /**
   * The whole image is drawn in its place, inside the buffer, if and only if
   * the buffer's size does not wrap, whenever there is anything to draw.
   */
  lemma DrawnInPlaceExactly(w: nat, h: nat, sw: nat, sh: nat)
    requires 0 < sw && 0 < sh && Scale(w, h, sw, sh) > 0
    requires Extent(w, Scale(w, h, sw, sh), sw) > 0 && Extent(h, Scale(w, h, sw, sh), sh) > 0
    ensures var f := Scale(w, h, sw, sh);
            AllInPlace(sw, sh, Extent(w, f, sw), Extent(h, f, sh)) <==> Stageable(sw, sh)
  {
    var f := Scale(w, h, sw, sh);
    var dw, dh := Extent(w, f, sw), Extent(h, f, sh);
    if Stageable(sw, sh) {
      StageableInPlace(sw, sh, dw, dh);
    } else {
      LastAstray(w, h, sw, sh, dw, dh);
      assert !RowInPlace(Start(sw, sh, dw, dh, dh - 1), dw, sw, sh);
    }
  }

  lemma StageableInPlace(sw: nat, sh: nat, dw: nat, dh: nat)
    requires dw <= sw && dh <= sh && Stageable(sw, sh)
    ensures AllInPlace(sw, sh, dw, dh)
  {
    CapacityWhole(sw, sh);
    forall dy | 0 <= dy < dh
      ensures RowInPlace(Start(sw, sh, dw, dh, dy), dw, sw, sh)
    {
      RowInside(Origin(sw, dw), dw, Origin(sh, dh) + dy, sw, sh);
      PlacesSmall(Start(sw, sh, dw, dh, dy), dw, sw, sh);
    }
  }

  lemma PlacesSmall(start: nat, dw: nat, sw: nat, sh: nat)
    requires start + dw <= sw * sh == Capacity(sw, sh) && sw * sh * 4 < UINT32
    ensures RowInPlace(start, dw, sw, sh)
  {
    forall dx | 0 <= dx < dw
      ensures InPlace(start, dx, sw, sh)
    {
      PlaceSmall(start, dx);
    }
  }

  /** With a wrapped buffer, the image's last pixel has no place of its own. */
  lemma LastAstray(w: nat, h: nat, sw: nat, sh: nat, dw: nat, dh: nat)
    requires 0 < sw && 0 < sh && Scale(w, h, sw, sh) > 0 && !Stageable(sw, sh)
    requires dw == Extent(w, Scale(w, h, sw, sh), sw) > 0 && dh == Extent(h, Scale(w, h, sw, sh), sh) > 0
    ensures !InPlace(Start(sw, sh, dw, dh, dh - 1), dw - 1, sw, sh)
  {
    CapacityHalf(sw, sh);
    if dw == sw || dh == sh {
      LastInHalf(sw, sh, dw, dh);
    } else {
      if sw <= 0x8000_0000 && sh <= 0x8000_0000 {
        SmallSurfacesFit(w, h, sw, sh);
        Fits(w, h, sw, sh);
      }
      LastBeyond(sw, sh, dw, dh);
    }
  }

  /** A square surface whose request wraps to nothing: the first write already lies outside. */
  lemma WrapsToNothing()
    ensures var sw, sh := 0x1_0000, 0x1_0000;
            Capacity(sw, sh) == 0 && Scale(1, 1, sw, sh) == 1 && Extent(1, 1, sw) == sw && Extent(1, 1, sh) == sh
            && Place(0, 0) >= Capacity(sw, sh)
  {
  }

  /**
   * Staying inside is not the same as being in place: here the request wraps
   * twice, the image is one row in the middle, its byte offsets wrap as well,
   * and it is written, inside the buffer, at the top.
   */
  lemma WrapsInside(dx: nat)
    requires dx < 0x1_0000
    ensures var w, h, sw, sh := 0x1_0000, 1, 0x1_0000, 0x8002;
            var dw, dh := Extent(w, ONE, sw), Extent(h, ONE, sh);
            && Scale(w, h, sw, sh) == ONE && dw == sw && dh == 1 && Capacity(sw, sh) == 0x2_0000
            && var start := Origin(sh, dh) * sw + Origin(sw, dw);
               Place(start, dx) == dx < Capacity(sw, sh) && start == 0x4000_0000
  {
  }

  /** A surface whose buffer does not wrap never overflows and never divides by zero. */
  lemma StageableIsSafe(w: nat, h: nat, sw: nat, sh: nat)
    requires w > 0 && h > 0 && sw > 0 && sh > 0 && Stageable(sw, sh)
    ensures Scale(w, h, sw, sh) > 0 && NoOverflow(w, h, Scale(w, h, sw, sh))
  {
    MulMono(1, sh, sw);
    MulMono(1, sw, sh);
    if sw > ONE && sh > ONE {
      MulMono(ONE, sw, sh);
    }
    if sw <= ONE {
      DivAtLeast(w * ONE, sw, 1);
    } else {
      DivAtLeast(h * ONE, sh, 1);
    }
    SmallSurfacesFit(w, h, sw, sh);
  }

  // ---- the picture ----

  /** What the surface shows at (x, y). */
  function Shown(rgba: seq<Pixel>, w: nat, h: nat, sw: nat, sh: nat, x: nat, y: nat): Pixel
    requires w > 0 && h > 0 && sw > 0 && sh > 0 && |rgba| == w * h && Scale(w, h, sw, sh) > 0
  {
    var f := Scale(w, h, sw, sh);
    var dw, dh := Extent(w, f, sw), Extent(h, f, sh);
    var x0, y0 := Origin(sw, dw), Origin(sh, dh);
    if x0 <= x < x0 + dw && y0 <= y < y0 + dh then
      SampleInside(w, f, sw, x - x0);
      SampleInside(h, f, sh, y - y0);
      PixelIndex(Sample(x - x0, f), Sample(y - y0, f), w, h);
      rgba[Sample(y - y0, f) * w + Sample(x - x0, f)]
    else BLACK
  }

  // ---- which pixel is shown ----

  /** Coordinate `i` of the image is the one under destination coordinate `d`: it holds the scaled point. */
  predicate Under(i: nat, d: nat, f: nat) {
    i * ONE <= d * f < (i + 1) * ONE
  }

  lemma UnderIsSample(i: nat, d: nat, f: nat)
    ensures Under(i, d, f) <==> i == Sample(d, f)
  {
    DivBounds(d * f, ONE);
  }

  predicate InPicture(w: nat, h: nat, sw: nat, sh: nat, x: nat, y: nat)
    requires sw > 0 && sh > 0 && Scale(w, h, sw, sh) > 0
  {
    var f := Scale(w, h, sw, sh);
    var dw, dh := Extent(w, f, sw), Extent(h, f, sh);
    Origin(sw, dw) <= x < Origin(sw, dw) + dw && Origin(sh, dh) <= y < Origin(sh, dh) + dh
  }

  /** The image's pixel (i, j) is shown at (x, y) exactly if both coordinates lie under it; bars are black. */
  lemma ShownIs(rgba: seq<Pixel>, w: nat, h: nat, sw: nat, sh: nat, x: nat, y: nat, i: nat, j: nat)
    requires w > 0 && h > 0 && sw > 0 && sh > 0 && |rgba| == w * h && Scale(w, h, sw, sh) > 0
    ensures !InPicture(w, h, sw, sh, x, y) ==> Shown(rgba, w, h, sw, sh, x, y) == BLACK
    ensures var f := Scale(w, h, sw, sh);
            var x0, y0 := Origin(sw, Extent(w, f, sw)), Origin(sh, Extent(h, f, sh));
            InPicture(w, h, sw, sh, x, y) && Under(i, x - x0, f) && Under(j, y - y0, f) ==>
              i < w && j < h && j * w + i < |rgba| && Shown(rgba, w, h, sw, sh, x, y) == rgba[j * w + i]
  {
    if InPicture(w, h, sw, sh, x, y) {
      var f := Scale(w, h, sw, sh);
      var x0, y0 := Origin(sw, Extent(w, f, sw)), Origin(sh, Extent(h, f, sh));
      UnderIsSample(i, x - x0, f);
      UnderIsSample(j, y - y0, f);
      SampleInside(w, f, sw, x - x0);
      SampleInside(h, f, sh, y - y0);
      PixelIndex(Sample(x - x0, f), Sample(y - y0, f), w, h);
    }
  }

  lemma UnscaledExtent(n: nat, s: nat)
    requires n < UINT32
    ensures Extent(n, ONE, s) == if n < s then n else s
  {
    DivBounds(n * ONE, ONE);
    assert n % UINT32 == n;
  }

  /** At scale one the image is shown pixel by pixel, as far as the surface goes. */
  lemma UnscaledShown(rgba: seq<Pixel>, w: nat, h: nat, sw: nat, sh: nat, i: nat, j: nat)
    requires 0 < w < UINT32 && 0 < h < UINT32 && sw > 0 && sh > 0 && |rgba| == w * h && Scale(w, h, sw, sh) == ONE
    requires i < w && i < sw && j < h && j < sh
    ensures var dw, dh := if w < sw then w else sw, if h < sh then h else sh;
            j * w + i < |rgba|
            && Shown(rgba, w, h, sw, sh, (sw - dw) / 2 + i, (sh - dh) / 2 + j) == rgba[j * w + i]
  {
    UnscaledExtent(w, sw);
    UnscaledExtent(h, sh);
    var dw, dh := if w < sw then w else sw, if h < sh then h else sh;
    assert Under(i, i, ONE) && Under(j, j, ONE);
    ShownIs(rgba, w, h, sw, sh, (sw - dw) / 2 + i, (sh - dh) / 2 + j, i, j);
  }

  /** Samples go on in the image's order: when it is enlarged none is skipped, when reduced none is repeated. */
  lemma SamplesInOrder(d: nat, f: nat)
    ensures Sample(d, f) <= Sample(d + 1, f)
    ensures f <= ONE ==> Sample(d + 1, f) <= Sample(d, f) + 1
    ensures f >= ONE ==> Sample(d + 1, f) >= Sample(d, f) + 1
  {
    assert (d + 1) * f == d * f + f;
  }

  /** Column or row `i` of the image is under some of the `extent` destination coordinates. */
  ghost predicate LineShown(i: nat, extent: nat, f: nat) {
    exists d :: 0 <= d < extent && Under(i, d, f)
  }

  /** When the image is enlarged, its column or row `i` is shown exactly if the last sample reaches it. */
  lemma LineShownExactly(i: nat, extent: nat, f: nat)
    requires extent > 0 && 0 < f <= ONE
    ensures LineShown(i, extent, f) <==> i * ONE <= (extent - 1) * f
  {
    if i * ONE <= (extent - 1) * f {
      var d := (i * ONE + f - 1) / f;
      FirstAtLeast(i, d, f);
      if d >= extent {
        MulMono(extent - 1, d - 1, f);
      }
      assert Under(i, d, f);
    } else {
      forall d | 0 <= d < extent
        ensures !Under(i, d, f)
      {
        MulMono(d, extent - 1, f);
      }
    }
  }

  lemma FirstAtLeast(i: nat, d: nat, f: nat)
    requires 0 < f <= ONE && d == (i * ONE + f - 1) / f
    ensures Under(i, d, f) && (d > 0 ==> (d - 1) * f < i * ONE)
  {
    DivBounds(i * ONE + f - 1, f);
    assert d > 0 ==> (d - 1) * f == d * f - f;
  }

  /** So all `n` of them are shown exactly if the last one is. */
  lemma AllLinesShownExactly(n: nat, extent: nat, f: nat)
    requires n > 0 && extent > 0 && 0 < f <= ONE
    ensures (forall i :: 0 <= i < n ==> LineShown(i, extent, f)) <==> (n - 1) * ONE <= (extent - 1) * f
  {
    LineShownExactly(n - 1, extent, f);
    if (n - 1) * ONE <= (extent - 1) * f {
      forall i | 0 <= i < n
        ensures LineShown(i, extent, f)
      {
        LineShownExactly(i, extent, f);
      }
    }
  }

  /** It need not be: of an image three pixels wide and five high, enlarged to eight by eight, the last column is lost. */
  lemma LastColumnLost()
    ensures var f := Scale(3, 5, 8, 8);
            && f <= ONE && Extent(3, f, 8) == 4 && Extent(5, f, 8) == 8
            && forall d :: 0 <= d < 4 ==> Sample(d, f) < 2
  {
    assert Scale(3, 5, 8, 8) == 40960;
    assert Sample(0, 40960) == 0 && Sample(1, 40960) == 0 && Sample(2, 40960) == 1 && Sample(3, 40960) == 1;
  }

  lemma PixelIndex(x: nat, y: nat, w: nat, h: nat)
    requires x < w && y < h
    ensures y * w + x < w * h
  {
    MulMono(y + 1, h, w);
    assert (y + 1) * w == y * w + w;
  }

  lemma IndexSplit(x: nat, y: nat, w: nat)
    requires x < w
    ensures (y * w + x) / w == y && (y * w + x) % w == x
  {
    DivAtLeast(y * w + x, w, y);
    assert (y + 1) * w == y * w + w;
    DivBelow(y * w + x, w, y + 1);
  }

  lemma IndexJoin(i: nat, w: nat)
    requires w > 0
    ensures i == i / w * w + i % w && i % w < w
  {
  }

  /** The part of the surface already drawn: the rows [y0, y0 + rows). */
  ghost predicate Drawn(stage: seq<Pixel>, rgba: seq<Pixel>, w: nat, h: nat, sw: nat, sh: nat, top: nat, rows: nat)
    requires w > 0 && h > 0 && sw > 0 && sh > 0 && |rgba| == w * h && Scale(w, h, sw, sh) > 0
  {
    forall i :: 0 <= i < |stage| ==>
         stage[i] == if top <= i / sw < top + rows then Shown(rgba, w, h, sw, sh, i % sw, i / sw) else BLACK
  }

  /** Filling the image's stretch of the next row draws that row. */
  lemma DrawnStep(before: seq<Pixel>, after: seq<Pixel>, rgba: seq<Pixel>, w: nat, h: nat, sw: nat, sh: nat,
                  f: nat, dw: nat, dh: nat, dy: nat, start: nat)
    requires w > 0 && h > 0 && sw > 0 && sh > 0 && |rgba| == w * h
    requires f > 0 && f == Scale(w, h, sw, sh) && dw == Extent(w, f, sw) && dh == Extent(h, f, sh)
    requires dy < dh && |after| == |before| && Drawn(before, rgba, w, h, sw, sh, Origin(sh, dh), dy)
    requires start == Start(sw, sh, dw, dh, dy)
    requires RowFilled(before, after, rgba, w, Sample(dy, f), f, start, dw)
    ensures Drawn(after, rgba, w, h, sw, sh, Origin(sh, dh), dy + 1)
  {
    var x0, y0 := Origin(sw, dw), Origin(sh, dh);
    var y := y0 + dy;
    forall i | 0 <= i < |after|
      ensures after[i] == if y0 <= i / sw < y0 + dy + 1 then Shown(rgba, w, h, sw, sh, i % sw, i / sw) else BLACK
    {
      IndexJoin(i, sw);
      if i / sw == y && x0 <= i % sw < x0 + dw {
        assert i - (y * sw + x0) == i % sw - x0;
      } else {
        RowApart(i, y, sw, x0, dw);
      }
    }
  }

  lemma RowApart(i: nat, y: nat, sw: nat, x0: nat, dw: nat)
    requires sw > 0 && x0 + dw <= sw && !(i / sw == y && x0 <= i % sw < x0 + dw)
    ensures !(y * sw + x0 <= i < y * sw + x0 + dw)
  {
    if y * sw + x0 <= i < y * sw + x0 + dw {
      IndexSplit(i - y * sw, y, sw);
    }
  }

  /** One row's effect: samples of source row `sy` in [start, start + dw), nothing else changed. */
  ghost predicate RowFilled(before: seq<Pixel>, after: seq<Pixel>, rgba: seq<Pixel>, w: nat, sy: nat, f: nat,
                            start: nat, dw: nat)
    requires w > 0 && |before| == |after|
  {
    && forall i :: 0 <= i < |after| ==>
         if start <= i < start + dw
         then sy * w + Sample(i - start, f) < |rgba| && after[i] == rgba[sy * w + Sample(i - start, f)]
         else after[i] == before[i]
  }

  /**
   * What a call comes to: nothing handed over, a frame, a division by zero,
   * or a pixel written elsewhere than in its place, from where on nothing is
   * said.
   */
  datatype Outcome = Nothing | Frame(pixels: seq<Pixel>) | Trapped | Astray

  class Gfx {
    var stage: array?<Pixel>
    var stageW: nat
    var stageH: nat

    ghost predicate Valid()
      reads this
    {
      stage != null ==> stage.Length == Capacity(stageW, stageH)
    }

    predicate Fitted(sw: nat, sh: nat)
      reads this
    {
      stage != null && stageW == sw && stageH == sh
    }

    constructor ()
      ensures Valid() && stage == null
    {
      stage := null;
      stageW, stageH := 0, 0;
    }

    /** Make the staging buffer match the surface; `granted` is whether malloc obliges. */
    method StageFit(sw: nat, sh: nat, granted: bool)
      requires Valid()
      modifies this
      ensures Valid() && stageW == sw && stageH == sh
      ensures stage != null <==> granted || old(Fitted(sw, sh))
      ensures stage == old(stage) || stage == null || fresh(stage)
    {
      if stage != null && stageW == sw && stageH == sh {
        return;
      }
      stage := null;
      if granted {
        stage := new Pixel[Capacity(sw, sh)];
      }
      stageW := sw;
      stageH := sh;
    }

    /** One row of the image: nearest samples into dw pixels from `start` on, as long as each is in its place. */
    method FillRow(rgba: seq<Pixel>, w: nat, sy: nat, f: nat, start: nat, dw: nat, sw: nat, sh: nat)
      returns (inPlace: bool)
      requires stage != null && stage.Length == Capacity(sw, sh) && w > 0 && sy * w + w <= |rgba|
      requires forall dx :: 0 <= dx < dw ==> Sample(dx, f) < w
      modifies stage
      ensures inPlace <==> RowInPlace(start, dw, sw, sh)
      ensures inPlace ==> RowFilled(old(stage[..]), stage[..], rgba, w, sy, f, start, dw)
    {
      ghost var before := stage[..];
      for dx := 0 to dw
        invariant forall d :: 0 <= d < dx ==> InPlace(start, d, sw, sh)
        invariant RowFilled(before, stage[..], rgba, w, sy, f, start, dx)
      {
        var sx := Sample(dx, f);
        if sx >= w {
          sx := w - 1;
        }
        if !InPlace(start, dx, sw, sh) {
          return false;
        }
        stage[Place(start, dx)] := rgba[sy * w + sx];
      }
      return true;
    }

    /** All rows of the image, on a cleared stage. */
    method FillRows(rgba: seq<Pixel>, w: nat, h: nat, sw: nat, sh: nat) returns (inPlace: bool)
      requires stage != null && stage.Length == Capacity(sw, sh)
      requires w > 0 && h > 0 && sw > 0 && sh > 0 && |rgba| == w * h && Scale(w, h, sw, sh) > 0
      requires forall i :: 0 <= i < stage.Length ==> stage[i] == BLACK
      modifies stage
      ensures var f := Scale(w, h, sw, sh);
              var dw, dh := Extent(w, f, sw), Extent(h, f, sh);
              && (inPlace <==> AllInPlace(sw, sh, dw, dh))
              && (inPlace ==> Drawn(stage[..], rgba, w, h, sw, sh, Origin(sh, dh), dh))
    {
      var f := Scale(w, h, sw, sh);
      var dw, dh := Extent(w, f, sw), Extent(h, f, sh);
      for dy := 0 to dh
        invariant Drawn(stage[..], rgba, w, h, sw, sh, Origin(sh, dh), dy)
        invariant forall d :: 0 <= d < dy ==> RowInPlace(Start(sw, sh, dw, dh, d), dw, sw, sh)
      {
        var sy := Sample(dy, f);
        if sy >= h {
          sy := h - 1;
        }
        SampleInside(h, f, sh, dy);
        ghost var before := stage[..];
        SourceRow(sy, w, h);
        forall dx | 0 <= dx < dw
          ensures Sample(dx, f) < w
        {
          SampleInside(w, f, sw, dx);
        }
        var start := Start(sw, sh, dw, dh, dy);
        var ok := FillRow(rgba, w, sy, f, start, dw, sw, sh);
        if !ok {
          return false;
        }
        DrawnStep(before, stage[..], rgba, w, h, sw, sh, f, dw, dh, dy, start);
      }
      return true;
    }

    /**
     * Present an image: as it is if it has the surface's size, else scaled.
     * The result is what is handed to the surface.
     */
    method Present(rgba: seq<Pixel>, w: nat, h: nat, sw: nat, sh: nat, granted: bool) returns (r: Outcome)
      requires Valid() && |rgba| == w * h && sw < UINT32 && sh < UINT32
      modifies this, stage
      ensures Valid()
      ensures if w == 0 || h == 0 || sw == 0 || sh == 0 then r == Nothing
              else if w == sw && h == sh then r == Frame(rgba)
              else if !granted && !old(Fitted(sw, sh)) then r == Nothing
              else Scaled(rgba, w, h, sw, sh, r)
    {
      if sw == 0 || sh == 0 || w == 0 || h == 0 {
        return Nothing;
      }
      if w == sw && h == sh {
        return Frame(rgba);
      }
      StageFit(sw, sh, granted);
      if stage == null {
        return Nothing;
      }
      if Stageable(sw, sh) {
        StageableIsSafe(w, h, sw, sh);
      }
      if Scale(w, h, sw, sh) == 0 {
        return Trapped;
      }
      forall i | 0 <= i < stage.Length {
        stage[i] := BLACK;
      }
      var inPlace := FillRows(rgba, w, h, sw, sh);
      if !inPlace {
        Went(rgba, w, h, sw, sh);
        return Astray;
      }
      Shows(stage[..], rgba, w, h, sw, sh);
      return Frame(stage[..]);
    }
  }

  /**
   * What scaling comes to, for every image and surface: the picture if the
   * buffer's size does not wrap; if it does, a trap when the scale is zero, a
   * black frame of the wrapped size when there is nothing to draw, and else
   * pixels out of place.
   */
  ghost predicate Scaled(rgba: seq<Pixel>, w: nat, h: nat, sw: nat, sh: nat, r: Outcome)
    requires w > 0 && h > 0 && sw > 0 && sh > 0 && |rgba| == w * h
  {
    var f := Scale(w, h, sw, sh);
    if f == 0 then r == Trapped && !Stageable(sw, sh)
    else if Stageable(sw, sh) then
      && r.Frame? && |r.pixels| == sw * sh
      && forall x, y :: 0 <= x < sw && 0 <= y < sh ==>
           PixelAt(r.pixels, sw, sh, x, y) == Shown(rgba, w, h, sw, sh, x, y)
    else if Extent(w, f, sw) == 0 || Extent(h, f, sh) == 0 then
      r.Frame? && |r.pixels| == Capacity(sw, sh) && forall i :: 0 <= i < |r.pixels| ==> r.pixels[i] == BLACK
    else r == Astray
  }

  lemma Went(rgba: seq<Pixel>, w: nat, h: nat, sw: nat, sh: nat)
    requires w > 0 && h > 0 && 0 < sw < UINT32 && 0 < sh < UINT32 && |rgba| == w * h && Scale(w, h, sw, sh) > 0
    requires var f := Scale(w, h, sw, sh); !AllInPlace(sw, sh, Extent(w, f, sw), Extent(h, f, sh))
    ensures Scaled(rgba, w, h, sw, sh, Astray)
  {
    DrawnInPlaceExactly(w, h, sw, sh);
  }

  lemma Shows(frame: seq<Pixel>, rgba: seq<Pixel>, w: nat, h: nat, sw: nat, sh: nat)
    requires w > 0 && h > 0 && 0 < sw < UINT32 && 0 < sh < UINT32 && |rgba| == w * h && Scale(w, h, sw, sh) > 0
    requires |frame| == Capacity(sw, sh)
    requires var f := Scale(w, h, sw, sh);
             var dw, dh := Extent(w, f, sw), Extent(h, f, sh);
             AllInPlace(sw, sh, dw, dh) && Drawn(frame, rgba, w, h, sw, sh, Origin(sh, dh), dh)
    ensures Scaled(rgba, w, h, sw, sh, Frame(frame))
  {
    var f := Scale(w, h, sw, sh);
    if Stageable(sw, sh) {
      CapacityWhole(sw, sh);
      DrawnShows(frame, rgba, w, h, sw, sh);
    } else if Extent(w, f, sw) > 0 && Extent(h, f, sh) > 0 {
      DrawnInPlaceExactly(w, h, sw, sh);
    }
  }

  /** The pixel of a frame at column x, row y. */
  function PixelAt(frame: seq<Pixel>, sw: nat, sh: nat, x: nat, y: nat): Pixel
    requires |frame| == sw * sh && x < sw && y < sh
  {
    PixelIndex(x, y, sw, sh);
    frame[y * sw + x]
  }

  lemma DrawnShows(frame: seq<Pixel>, rgba: seq<Pixel>, w: nat, h: nat, sw: nat, sh: nat)
    requires w > 0 && h > 0 && sw > 0 && sh > 0 && |rgba| == w * h && |frame| == sw * sh
    requires Scale(w, h, sw, sh) > 0
    requires var dh := Extent(h, Scale(w, h, sw, sh), sh);
             Drawn(frame, rgba, w, h, sw, sh, Origin(sh, dh), dh)
    ensures forall x, y :: 0 <= x < sw && 0 <= y < sh ==>
              PixelAt(frame, sw, sh, x, y) == Shown(rgba, w, h, sw, sh, x, y)
  {
    forall x, y | 0 <= x < sw && 0 <= y < sh
      ensures PixelAt(frame, sw, sh, x, y) == Shown(rgba, w, h, sw, sh, x, y)
    {
      PixelIndex(x, y, sw, sh);
      IndexSplit(x, y, sw);
    }
  }

  lemma RowInside(x0: nat, dw: nat, y: nat, sw: nat, sh: nat)
    requires x0 + dw <= sw && y < sh
    ensures y * sw + x0 + dw <= sw * sh
  {
    MulMono(y + 1, sh, sw);
    assert (y + 1) * sw == y * sw + sw;
  }

  lemma SourceRow(sy: nat, w: nat, h: nat)
    requires sy < h
    ensures sy * w + w <= w * h
  {
    MulMono(sy + 1, h, w);
    assert (sy + 1) * w == sy * w + w;
  }
}
