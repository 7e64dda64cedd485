/** Logo placement, `add_logo_with_border` (generate_qr.py:137-165): the
    size and offset arithmetic, and the two alpha-masked pastes that put a
    white disc with the logo on it into the QR image in place.

    Resizing the logo (LANCZOS) and rasterising the disc (`draw.ellipse`)
    are PIL internals: the resized logo is an input of the right size, the
    disc is given as the set of canvas pixels the ellipse fills, and the
    blend PIL applies to partially transparent pixels is a function
    parameter. */
module Placement {
  import opened Pixels

  /** `qr_width // factor`. */
  function LogoSize(width: nat, factor: nat): nat
    requires factor > 0
  {
    width / factor
  }

  /** `int(logo_size * 1.3)`, which equals floor(13 * logo_size / 10):
      where 13 * logo_size / 10 is a whole number the float product rounds
      to exactly that number, and elsewhere it is at least 0.1 away from
      every whole number, far more than the rounding error. */
  function BorderSize(logoSize: nat): nat
  {
    (13 * logoSize) / 10
  }

  /** Each coordinate of `pos_logo`: the logo's corner inside the canvas. */
  function LogoOffset(logoSize: nat, borderSize: nat): int
  {
    (borderSize - logoSize) / 2
  }

  /** Each coordinate of `pos_qr`, computed from the logo size as the
      source does: `(qr_width - logo_size) // 2`. */
  function PasteOrigin(extent: nat, logoSize: nat): int
  {
    (extent - logoSize) / 2
  }

  /** The canvas is at least as large as the logo and at most 30% larger. */
  lemma BorderBounds(logoSize: nat)
    ensures logoSize <= BorderSize(logoSize)
    ensures 10 * BorderSize(logoSize) <= 13 * logoSize
  {
    var b := BorderSize(logoSize);
    assert 10 * b <= 13 * logoSize < 10 * b + 10;
  }

  /** The logo lies inside the canvas and is centred on it to within half a
      pixel: 2 * pos_logo + logo_size is borderSize or one less. */
  lemma LogoInsideCanvas(logoSize: nat)
    ensures var b := BorderSize(logoSize); var p := LogoOffset(logoSize, b);
      0 <= p && p + logoSize <= b && b - 1 <= 2 * p + logoSize <= b
  {
    BorderBounds(logoSize);
  }

  /** For a square W x W image and factor >= 2 (the source uses 8) the
      pasted canvas stays inside the image: 0 <= pos_qr and
      pos_qr + border_size <= W. */
  lemma CanvasInsideImage(width: nat, factor: nat)
    requires factor >= 2
    ensures var l := LogoSize(width, factor); var p := PasteOrigin(width, l);
      l <= width && 0 <= p && p + BorderSize(l) <= width
  {
    var l := LogoSize(width, factor);
    assert 2 * l <= width by {
      assert l * factor <= width;
      assert 2 * l <= l * factor;
    }
    BorderBounds(l);
    var p := PasteOrigin(width, l);
    assert 2 * p <= width - l;
    assert 10 * (2 * p + 2 * BorderSize(l)) <= 10 * (width - l) + 26 * l;
  }

  /** Because pos_qr is computed from the logo size rather than the canvas
      size, the canvas is not centred: in doubled pixel units its centre
      sits border_size - logo_size (less the parity of W - logo_size) to the
      right of and below the image centre, and the logo itself sits the same
      distance (less two parities) off centre. */
  lemma PasteOffCentre(width: nat, factor: nat)
    requires factor > 0
    ensures var l := LogoSize(width, factor); var b := BorderSize(l); var p := PasteOrigin(width, l);
      2 * p + b - width == (b - l) - (width - l) % 2 &&
      2 * (p + LogoOffset(l, b)) + l - width == (b - l) - (b - l) % 2 - (width - l) % 2
  {
    var l := LogoSize(width, factor);
    BorderBounds(l);
    assert l * factor <= width;
    assert l <= width by {
      assert l <= l * factor;
    }
  }

  /** On the 290-pixel code of a 25-module symbol (box size 10, border 2
      modules) the canvas occupies [127, 173) on each axis: its centre, 150,
      is 5 pixels from the image centre 145. */
  lemma OffCentreExample()
    ensures LogoSize(290, 8) == 36 && BorderSize(36) == 46 && PasteOrigin(290, 36) == 127
    ensures 2 * PasteOrigin(290, 36) + BorderSize(36) - 290 == 10
  {
  }

  /** PIL's `paste(im, box, im)` at one pixel, an RGBA image as its own mask:
      an opaque pixel replaces what is under it, a transparent one leaves it,
      a partially transparent one is blended. */
  function PastePixel(under: Rgba, over: Rgba, blend: (Rgba, Rgba) -> Rgba): Rgba
  {
    if over.a == 255 then over else if over.a == 0 then under else blend(under, over)
  }

  /** Whether (i, j) falls inside an image of the given size. */
  predicate Inside(i: int, j: int, width: int, height: int) {
    0 <= i < width && 0 <= j < height
  }

  /** `dst.paste(src, (ox, oy), src)`: the part of `src` that falls inside
      `dst` is pasted, alpha-masked, and every other pixel of `dst` keeps its
      value. */
  method Paste(dst: array2<Rgba>, src: array2<Rgba>, ox: int, oy: int, blend: (Rgba, Rgba) -> Rgba)
    requires dst != src
    modifies dst
    ensures forall i, j :: 0 <= i < dst.Length0 && 0 <= j < dst.Length1 ==>
      dst[i, j] == if Inside(i - ox, j - oy, src.Length0, src.Length1)
                   then PastePixel(old(dst[i, j]), src[i - ox, j - oy], blend)
                   else old(dst[i, j])
  {
    var x0 := if ox < 0 then 0 else ox;
    var x1 := if ox + src.Length0 < dst.Length0 then ox + src.Length0 else dst.Length0;
    if x1 < x0 {
      x1 := x0;
    }
    var y0 := if oy < 0 then 0 else oy;
    var y1 := if oy + src.Length1 < dst.Length1 then oy + src.Length1 else dst.Length1;
    if y1 < y0 {
      y1 := y0;
    }
    var y := y0;
    while y < y1
      invariant y0 <= y <= y1
      invariant forall i, j :: 0 <= i < dst.Length0 && 0 <= j < dst.Length1 ==>
        dst[i, j] == if x0 <= i < x1 && y0 <= j < y
                     then PastePixel(old(dst[i, j]), src[i - ox, j - oy], blend)
                     else old(dst[i, j])
    {
      var x := x0;
      while x < x1
        invariant x0 <= x <= x1
        invariant forall i, j :: 0 <= i < dst.Length0 && 0 <= j < dst.Length1 ==>
          dst[i, j] == if (x0 <= i < x1 && y0 <= j < y) || (x0 <= i < x && j == y)
                       then PastePixel(old(dst[i, j]), src[i - ox, j - oy], blend)
                       else old(dst[i, j])
      {
        dst[x, y] := PastePixel(dst[x, y], src[x - ox, y - oy], blend);
        x := x + 1;
      }
      y := y + 1;
    }
  }

  /** The canvas pixel (i, j) after the logo is pasted onto the white disc. */
  ghost function CanvasPixel(logo: array2<Rgba>, pos: int, disc: (int, int) -> bool,
                             blend: (Rgba, Rgba) -> Rgba, i: int, j: int): Rgba
    reads logo
  {
    var base := if disc(i, j) then Opaque(White) else Transparent;
    if Inside(i - pos, j - pos, logo.Length0, logo.Length1)
    then PastePixel(base, logo[i - pos, j - pos], blend)
    else base
  }

  /** The bordered logo of `add_logo_with_border`: a transparent
      border_size x border_size canvas, the white disc drawn on it, and the
      logo pasted at pos_logo, masked by its own alpha. */
  method BorderedLogo(logo: array2<Rgba>, logoSize: nat, disc: (int, int) -> bool,
                      blend: (Rgba, Rgba) -> Rgba) returns (border: array2<Rgba>)
    ensures fresh(border)
    ensures border.Length0 == BorderSize(logoSize) && border.Length1 == BorderSize(logoSize)
    ensures forall i, j :: 0 <= i < border.Length0 && 0 <= j < border.Length1 ==>
      border[i, j] == CanvasPixel(logo, LogoOffset(logoSize, BorderSize(logoSize)), disc, blend, i, j)
  {
    var borderSize := (13 * logoSize) / 10;
    border := new Rgba[borderSize, borderSize]((i, j) => if disc(i, j) then Opaque(White) else Transparent);
    var posLogo := (borderSize - logoSize) / 2;
    Paste(border, logo, posLogo, posLogo, blend);
  }

  /** `add_logo_with_border(qr_img, logo_img, factor)`, on an RGBA image and
      a logo already resized to logo_size x logo_size: the bordered logo is
      pasted, masked by its own alpha, at pos_qr; pixels outside its window
      keep their value. */
  method AddLogoWithBorder(qr: array2<Rgba>, logo: array2<Rgba>, factor: nat,
                           disc: (int, int) -> bool, blend: (Rgba, Rgba) -> Rgba)
    requires factor > 0 && qr != logo
    requires logo.Length0 == LogoSize(qr.Length0, factor) && logo.Length1 == logo.Length0
    modifies qr
    ensures var l := LogoSize(qr.Length0, factor);
      var b := BorderSize(l);
      var px, py := PasteOrigin(qr.Length0, l), PasteOrigin(qr.Length1, l);
      forall i, j :: 0 <= i < qr.Length0 && 0 <= j < qr.Length1 ==>
        qr[i, j] == if Inside(i - px, j - py, b, b)
                    then PastePixel(old(qr[i, j]), CanvasPixel(logo, LogoOffset(l, b), disc, blend, i - px, j - py), blend)
                    else old(qr[i, j])
  {
    var logoSize := qr.Length0 / factor;
    var border := BorderedLogo(logo, logoSize, disc, blend);
    var posX, posY := (qr.Length0 - logoSize) / 2, (qr.Length1 - logoSize) / 2;
    Paste(qr, border, posX, posY, blend);
  }
}
