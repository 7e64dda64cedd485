/** Shared value types of the QR pipeline: an optional value and the two
    pixel kinds the rasters hold. */
module Pixels {

  /** A value that may be missing (a Python `None`, or an exception the
      model turns into "no value"). */
  datatype Option<T> = None | Some(value: T)

  /** An RGB pixel; channels are unbounded integers so that out-of-range
      values the source could produce stay visible in the model. */
  datatype Rgb = Rgb(r: int, g: int, b: int)

  /** An RGBA pixel, as PIL's "RGBA" mode stores it. */
  datatype Rgba = Rgba(r: int, g: int, b: int, a: int)

  const White: Rgb := Rgb(255, 255, 255)
  const Black: Rgb := Rgb(0, 0, 0)
  const Transparent: Rgba := Rgba(0, 0, 0, 0)

  /** One 8-bit channel value. */
  predicate IsByte(v: int) { 0 <= v <= 255 }

  predicate IsRgbByte(c: Rgb) { IsByte(c.r) && IsByte(c.g) && IsByte(c.b) }

  predicate IsRgbaByte(p: Rgba) { IsByte(p.r) && IsByte(p.g) && IsByte(p.b) && IsByte(p.a) }

  /** The fully opaque RGBA pixel of an RGB colour (PIL's convert("RGBA")). */
  function Opaque(c: Rgb): (p: Rgba)
    ensures p.a == 255 && p.r == c.r && p.g == c.g && p.b == c.b
  {
    Rgba(c.r, c.g, c.b, 255)
  }
}
