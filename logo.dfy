/** Logo recolouring: `colorize_logo` and `force_black_logo`
    (generate_qr.py:108-135). Both write a fresh RGBA raster pixel by pixel
    and never touch alpha. */
module Logo {
  import opened Pixels

  /** `max(0, int(c * 0.9))`. For c >= 0 the truncation of the float
      product equals floor(9c/10): where 9c/10 is a whole number the product
      rounds to exactly that number, and elsewhere 9c/10 is at least 0.1
      away from every whole number, far more than the rounding error. For
      c < 0 the result is 0. */
  function Scale90(c: int): int
  {
    if c <= 0 then 0 else (9 * c) / 10
  }

  /** A reference channel scaled to 90%: never negative, never above the
      reference, strictly darker for every positive channel, and at most one
      below the exact 90%. */
  lemma Scale90Bounds(c: int)
    ensures 0 <= Scale90(c)
    ensures c >= 0 ==> Scale90(c) <= c
    ensures c > 0 ==> Scale90(c) < c
    ensures c >= 0 ==> 9 * c - 10 < 10 * Scale90(c) <= 9 * c
  {
    if c > 0 {
      var q := (9 * c) / 10;
      assert 10 * q <= 9 * c < 10 * q + 10;
    }
  }

  /** The colour `colorize_logo` gives every visible pixel. */
  function Tint(c: Rgb): Rgb
  {
    Rgb(Scale90(c.r), Scale90(c.g), Scale90(c.b))
  }

  /** One pixel of `colorize_logo(logo, c)`. */
  function ColorizePixel(p: Rgba, c: Rgb): Rgba
  {
    if p.a == 0 then Transparent
    else var t := Tint(c); Rgba(t.r, t.g, t.b, p.a)
  }

  /** One pixel of `force_black_logo(logo)`. */
  function BlackPixel(p: Rgba): Rgba
  {
    if p.a == 0 then Transparent else Rgba(0, 0, 0, p.a)
  }

  /** What `colorize_logo` promises of every pixel: alpha unchanged, an
      invisible pixel becomes transparent black, a visible one takes 90% of
      the reference colour, each channel between 0 and the reference. */
  lemma ColorizePixelSpec(p: Rgba, c: Rgb)
    ensures ColorizePixel(p, c).a == p.a
    ensures p.a == 0 ==> ColorizePixel(p, c) == Transparent
    ensures p.a != 0 ==> ColorizePixel(p, c) == Rgba(Scale90(c.r), Scale90(c.g), Scale90(c.b), p.a)
    ensures IsRgbByte(c) && IsByte(p.a) ==> IsRgbaByte(ColorizePixel(p, c))
    ensures IsRgbByte(c) && p.a != 0 ==>
      ColorizePixel(p, c).r <= c.r && ColorizePixel(p, c).g <= c.g && ColorizePixel(p, c).b <= c.b
  {
    Scale90Bounds(c.r);
    Scale90Bounds(c.g);
    Scale90Bounds(c.b);
  }

  /** `force_black_logo` is `colorize_logo` with black as the reference. */
  lemma ForceBlackIsColorizeBlack(p: Rgba)
    ensures BlackPixel(p) == ColorizePixel(p, Black)
    ensures BlackPixel(p).a == p.a
  {
  }

  /** `colorize_logo(logo_img, rgb_color)`: x outer, y inner, as in the source. */
  method ColorizeLogo(logo: array2<Rgba>, c: Rgb) returns (colored: array2<Rgba>)
    ensures fresh(colored)
    ensures colored.Length0 == logo.Length0 && colored.Length1 == logo.Length1
    ensures forall x, y :: 0 <= x < logo.Length0 && 0 <= y < logo.Length1 ==>
      colored[x, y] == ColorizePixel(logo[x, y], c)
  {
    colored := new Rgba[logo.Length0, logo.Length1]((x, y) => Transparent);
    var rAdj, gAdj, bAdj := Scale90(c.r), Scale90(c.g), Scale90(c.b);
    var x := 0;
    while x < logo.Length0
      invariant 0 <= x <= logo.Length0
      invariant forall i, j :: 0 <= i < x && 0 <= j < logo.Length1 ==> colored[i, j] == ColorizePixel(logo[i, j], c)
    {
      var y := 0;
      while y < logo.Length1
        invariant 0 <= y <= logo.Length1
        invariant forall i, j :: 0 <= i < x && 0 <= j < logo.Length1 ==> colored[i, j] == ColorizePixel(logo[i, j], c)
        invariant forall j :: 0 <= j < y ==> colored[x, j] == ColorizePixel(logo[x, j], c)
      {
        var alpha := logo[x, y].a;
        if alpha == 0 {
          colored[x, y] := Rgba(0, 0, 0, 0);
        } else {
          colored[x, y] := Rgba(rAdj, gAdj, bAdj, alpha);
        }
        y := y + 1;
      }
      x := x + 1;
    }
  }

  /** `force_black_logo(logo_img)`. */
  method ForceBlackLogo(logo: array2<Rgba>) returns (colored: array2<Rgba>)
    ensures fresh(colored)
    ensures colored.Length0 == logo.Length0 && colored.Length1 == logo.Length1
    ensures forall x, y :: 0 <= x < logo.Length0 && 0 <= y < logo.Length1 ==>
      colored[x, y] == BlackPixel(logo[x, y])
  {
    colored := new Rgba[logo.Length0, logo.Length1]((x, y) => Transparent);
    var x := 0;
    while x < logo.Length0
      invariant 0 <= x <= logo.Length0
      invariant forall i, j :: 0 <= i < x && 0 <= j < logo.Length1 ==> colored[i, j] == BlackPixel(logo[i, j])
    {
      var y := 0;
      while y < logo.Length1
        invariant 0 <= y <= logo.Length1
        invariant forall i, j :: 0 <= i < x && 0 <= j < logo.Length1 ==> colored[i, j] == BlackPixel(logo[i, j])
        invariant forall j :: 0 <= j < y ==> colored[x, j] == BlackPixel(logo[x, j])
      {
        var alpha := logo[x, y].a;
        if alpha == 0 {
          colored[x, y] := Rgba(0, 0, 0, 0);
        } else {
          colored[x, y] := Rgba(0, 0, 0, alpha);
        }
        y := y + 1;
      }
      x := x + 1;
    }
  }

  /** Sum of the alpha values of a run of pixels. */
  function AlphaSum(ps: seq<Rgba>): int
  {
    if ps == [] then 0 else ps[0].a + AlphaSum(ps[1..])
  }

  /** Recolouring a column of pixels keeps its total alpha exactly. */
  lemma {:induction false} AlphaSumKept(ps: seq<Rgba>, c: Rgb)
    ensures AlphaSum(seq(|ps|, i requires 0 <= i < |ps| => ColorizePixel(ps[i], c))) == AlphaSum(ps)
  {
    var qs := seq(|ps|, i requires 0 <= i < |ps| => ColorizePixel(ps[i], c));
    if ps != [] {
      AlphaSumKept(ps[1..], c);
      assert qs[1..] == seq(|ps[1..]|, i requires 0 <= i < |ps[1..]| => ColorizePixel(ps[1..][i], c));
    }
  }
}
