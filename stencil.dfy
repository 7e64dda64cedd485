/** The stencil step of `generate_qr_color_gradient` (generate_qr.py:55-77):
    the QR code's grayscale raster is inverted into a mask, and the mask
    picks the gradient pixel on dark modules and white on light ones.

    The QR encoder is not part of this model: its output is an input
    raster `qr` of gray values, 0 on dark modules and 255 on light ones
    (a two-tone image converted to PIL's "L" mode holds nothing else). */
module Stencil {
  import opened Pixels
  import opened Gradient

  /** The mask map `lambda x: 255 - x`. */
  function Invert(v: int): (m: int)
    ensures IsByte(v) ==> IsByte(m)
    ensures 255 - m == v
  {
    255 - v
  }

  /** Inverting twice gives the gray value back. */
  lemma InvertInvolution(v: int)
    ensures Invert(Invert(v)) == v
  {
  }

  predicate IsTwoTone(v: int) { v == 0 || v == 255 }

  /** Every gray value of the raster is 0 or 255. */
  ghost predicate IsQrRaster(qr: array2<int>)
    reads qr
  {
    forall i, j :: 0 <= i < qr.Length0 && 0 <= j < qr.Length1 ==> IsTwoTone(qr[i, j])
  }

  /** `Image.composite(image1, image2, mask)` at one pixel, for a two-tone
      mask: 255 takes image1's pixel, 0 keeps image2's. */
  function Select(m: int, fg: Rgb, bg: Rgb): Rgb
    requires IsTwoTone(m)
  {
    if m == 255 then fg else bg
  }

  /** The colour the stencil gives a pixel whose QR gray value is q and whose
      gradient colour is g. */
  function StencilPixel(q: int, g: Rgb): (c: Rgb)
    requires IsTwoTone(q)
    ensures q == 0 ==> c == g
    ensures q == 255 ==> c == White
  {
    Select(Invert(q), g, White)
  }

  /** `Image.eval(qr_img, lambda x: 255 - x)`, pixel by pixel. */
  method InvertRaster(qr: array2<int>) returns (mask: array2<int>)
    ensures fresh(mask)
    ensures mask.Length0 == qr.Length0 && mask.Length1 == qr.Length1
    ensures forall i, j :: 0 <= i < qr.Length0 && 0 <= j < qr.Length1 ==> mask[i, j] == Invert(qr[i, j])
  {
    mask := new int[qr.Length0, qr.Length1];
    var y := 0;
    while y < qr.Length1
      invariant 0 <= y <= qr.Length1
      invariant forall i, j :: 0 <= i < qr.Length0 && 0 <= j < y ==> mask[i, j] == Invert(qr[i, j])
    {
      var x := 0;
      while x < qr.Length0
        invariant 0 <= x <= qr.Length0
        invariant forall i, j :: 0 <= i < qr.Length0 && 0 <= j < y ==> mask[i, j] == Invert(qr[i, j])
        invariant forall i :: 0 <= i < x ==> mask[i, y] == Invert(qr[i, y])
      {
        mask[x, y] := 255 - qr[x, y];
        x := x + 1;
      }
      y := y + 1;
    }
  }

  /** `Image.composite(image1, image2, mask)` for a two-tone mask. */
  method Composite(image1: array2<Rgb>, image2: array2<Rgb>, mask: array2<int>) returns (out: array2<Rgb>)
    requires image2.Length0 == image1.Length0 && image2.Length1 == image1.Length1
    requires mask.Length0 == image1.Length0 && mask.Length1 == image1.Length1
    requires forall i, j :: 0 <= i < mask.Length0 && 0 <= j < mask.Length1 ==> IsTwoTone(mask[i, j])
    ensures fresh(out)
    ensures out.Length0 == image1.Length0 && out.Length1 == image1.Length1
    ensures forall i, j :: 0 <= i < out.Length0 && 0 <= j < out.Length1 ==>
      out[i, j] == Select(mask[i, j], image1[i, j], image2[i, j])
  {
    out := new Rgb[image1.Length0, image1.Length1]((i, j) => Black);
    var y := 0;
    while y < image1.Length1
      invariant 0 <= y <= image1.Length1
      invariant forall i, j :: 0 <= i < image1.Length0 && 0 <= j < y ==>
        out[i, j] == Select(mask[i, j], image1[i, j], image2[i, j])
    {
      var x := 0;
      while x < image1.Length0
        invariant 0 <= x <= image1.Length0
        invariant forall i, j :: 0 <= i < image1.Length0 && 0 <= j < y ==>
          out[i, j] == Select(mask[i, j], image1[i, j], image2[i, j])
        invariant forall i :: 0 <= i < x ==> out[i, y] == Select(mask[i, y], image1[i, y], image2[i, y])
      {
        out[x, y] := if mask[x, y] == 255 then image1[x, y] else image2[x, y];
        x := x + 1;
      }
      y := y + 1;
    }
  }

  /** The gradient-coloured QR code: every dark module shows the gradient
      pixel at its position, every light one is white, and no third colour
      appears; the raster keeps the QR raster's size. The gradient is
      returned beside it, as the source does. */
  method GenerateQrColorGradient(qr: array2<int>, colors: seq<Rgb>) returns (colored: array2<Rgb>, gradient: array2<Rgb>)
    requires |colors| >= 2 && IsQrRaster(qr)
    ensures fresh(colored) && fresh(gradient)
    ensures colored.Length0 == qr.Length0 && colored.Length1 == qr.Length1
    ensures gradient.Length0 == qr.Length0 && gradient.Length1 == qr.Length1
    ensures forall i, j :: 0 <= i < qr.Length0 && 0 <= j < qr.Length1 ==>
      gradient[i, j] == PixelAt(colors, qr.Length0, qr.Length1, i, j)
    ensures forall i, j :: 0 <= i < qr.Length0 && 0 <= j < qr.Length1 ==>
      colored[i, j] == StencilPixel(qr[i, j], PixelAt(colors, qr.Length0, qr.Length1, i, j))
  {
    var w, h := qr.Length0, qr.Length1;
    gradient := DiagonalGradient(w, h, colors);
    var white := new Rgb[w, h]((i, j) => White);
    var mask := InvertRaster(qr);
    colored := Composite(gradient, white, mask);
  }

  /** The "Black" palette (every stop black) gives the plain black-on-white
      code: each pixel is the gray value of the QR raster. */
  lemma UniformBlackIsPlain(colors: seq<Rgb>, w: nat, h: nat, x: nat, y: nat, q: int)
    requires |colors| >= 2 && x < w && y < h && IsTwoTone(q)
    requires forall i :: 0 <= i < |colors| ==> colors[i] == Black
    ensures StencilPixel(q, PixelAt(colors, w, h, x, y)) == Rgb(q, q, q)
  {
    Gradient.UniformPalette(colors, w, h, x, y);
  }
}
