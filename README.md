# QR code generator: colour, gradient, logo and domain logic

This project models the pixel and string routines of `generate_qr.py`. That
script is a Streamlit app. It turns a URL or an e-mail address into a QR code
coloured by a five-stop diagonal gradient, with the site's logo on a white
disc in the middle. Images are Dafny `array2`s indexed `[x, y]`, so
`Length0` is the width. Colours are unbounded integers. Each byte bound is a
proved property, not a type.

| module | file | models |
|---|---|---|
| `Pixels` | pixels.dfy | RGB / RGBA values, the byte range, `Option` |
| `Hex` | hex.dfy | `hex_to_rgb` (Python's `lstrip('#')`, slicing and `int(_, 16)`) and the palette table |
| `Gradient` | gradient.dfy | `diagonal_gradient`, in exact integer arithmetic, as a method filling a fresh raster |
| `Stencil` | stencil.dfy | the mask inversion and composite of `generate_qr_color_gradient` |
| `Logo` | logo.dfy | `colorize_logo` and `force_black_logo`, as loops writing a fresh RGBA raster |
| `Placement` | placement.dfy | `add_logo_with_border`: the size and offset arithmetic, and the two alpha-masked pastes done in place |
| `Domain` | domain.dfy | `extract_domain`, the first-label rule, the `NO_COLORIZE` policy |

Arithmetic choices:
- The gradient works with `num = (x+y)*n` and `den = w+h`.
  - The segment is `num / den`, clamped to `n-1`.
  - Each channel is `(c1*den + (c2-c1)*rem) / den`, with the division truncated toward zero as Python's `int()` does.
  - `LerpIsFloor` proves that, for non-negative stops, this equals the floor form `c1 + ((c2-c1)*rem)/den`.
- `int(c * 0.9)` is modelled as `(9*c)/10`, and `int(logo_size * 1.3)` as `(13*logo_size)/10`.
  - For a non-negative input of any realistic size the float code agrees with this. Where 9c/10 (or 13L/10) is a whole number, the double product rounds to exactly that number.
  - Elsewhere the exact value is at least 0.1 away from every whole number, far more than the rounding error, so truncation gives the same floor.
  - For these inputs the truncation therefore equals the exact floor, and the model agrees with the float code.

The code places the logo at `pos_qr = (W - logo_size) // 2`. That offset uses
the logo size, not the size of the canvas being pasted, so the white disc and
the logo sit to the lower right of the image centre. The model follows the
code, and `PasteOffCentre` and `OffCentreExample` state the offset exactly.
On a 290-pixel code the disc's centre is 5 px right of and below the image
centre.

## Model

| member | source | states |
|---|---|---|
| Hex.HexToRgb | generate_qr.py:26-28 | `hex_to_rgb`: strip leading '#'s, then parse the slices [0:2], [2:4] and [4:6]; None stands for the ValueError. Its partners are HexToRgbOfDigits, HexRoundTrip and ShortInputFails |
| Hex.ParseField | generate_qr.py:28 | `int(field, 16)` on a field of at most two characters: surrounding white space, an optional sign, then one or more hex digits, or None. Its partners are TwoDigitField and SignedFieldsParse |
| Hex.HexDigit | generate_qr.py:28 | a character has a base-16 value exactly when it is 0-9, a-f or A-F, and that value is below 16. Its partners DigitRoundTrip and UpperDigitValue fix every value |
| Hex.UpperDigitValue | generate_qr.py:28 | against the table "0123456789ABCDEF": the v-th upper-case digit has value v, the same as the v-th lower-case digit, so 'A' is 10 and 'F' is 15 |
| Hex.AllFIsWhite | generate_qr.py:26-28 | "#FFFFFF", in any mix of cases, parses to (255, 255, 255) |
| Hex.StripHashes | generate_qr.py:27 | `lstrip('#')` returns a suffix of its input; everything it dropped was '#'; what is left does not start with '#' |
| Hex.StripsExactly | generate_qr.py:27 | when the first k characters are '#' and the next is not, exactly those k are removed |
| Hex.HexToRgbOfDigits | generate_qr.py:26-28 | any number of '#' followed by six hex digits parses; each component is 16*first digit + second digit of its pair, so each is a byte |
| Hex.TwoDigitField | generate_qr.py:28 | `int(s, 16)` on two hex digits is 16*d0 + d1 |
| Hex.ShortInputFails | generate_qr.py:27-28 | if fewer than five characters are left after the '#'s, the third slice is empty and the call raises (None) |
| Hex.FieldSpacing | generate_qr.py:28 | `int(_, 16)` strips white space around a field (" 1" reads as 1), but below code point 127 only tab to carriage return and space: a field starting with U+001C raises |
| Hex.SignedFieldsParse | generate_qr.py:28 | `int()` accepts a sign, so "#-1-1-1" parses to (-1, -1, -1): only well-formed input is sure to give bytes |
| Hex.HexRoundTrip | generate_qr.py:26-28 | writing a byte colour as "#rrggbb" and parsing it gives the colour back |
| Hex.HashHexParses | generate_qr.py:26-28 | every "#rrggbb" string parses, to the bytes its digit pairs write |
| Hex.ParsePalette | generate_qr.py:68 | the comprehension yields one colour per entry, each the parse of that entry; it fails exactly when some entry fails |
| Hex.ParseHashHexes | generate_qr.py:68 | a list of "#rrggbb" strings parses to byte colours |
| Hex.TableWellFormed | generate_qr.py:13-21 | every palette in the table has five "#rrggbb" entries |
| Hex.PalettesParse | generate_qr.py:13-21 | every palette in the table parses to five byte colours, a valid input to the gradient |
| Hex.UniformPalette | generate_qr.py:68 | a list of copies of one well-formed entry parses to copies of one colour |
| Hex.ZeroHexIsBlack | generate_qr.py:26-28 | "#000000" parses to black |
| Hex.ZeroPalette | generate_qr.py:68 | a list of "#000000" entries parses to as many black stops |
| Hex.BlackPalette | generate_qr.py:14 | the "Black" palette parses to five black stops |
| Gradient.Segment | generate_qr.py:40-43 | `int(dist)` for dist = t*n/den, clamped to n-1. Its partner is SegmentInRange |
| Gradient.Lerp | generate_qr.py:47-49 | `int(c1 + (c2-c1)*ratio)` for ratio = rem/den, truncated toward zero. Its partners are LerpBetween and LerpIsFloor |
| Gradient.PixelAt | generate_qr.py:40-49 | the colour of pixel (x, y): segment, remainder, and one Lerp per channel. Its partners are PixelBetweenStops, GradientContinuity and the pixel lemmas below |
| Gradient.SegmentInRange | generate_qr.py:40-44 | inside the raster the clamp never fires, the segment is floor(dist) in [0, n-1], and the ratio rem/den is in [0, 1) |
| Gradient.LerpBetween | generate_qr.py:47-49 | a truncated interpolated channel lies between the two stops it interpolates, in either order |
| Gradient.PixelBetweenStops | generate_qr.py:36-49 | each channel of every pixel lies between the stops of its segment, and the segment is at most n-1; byte stops give byte pixels |
| Gradient.LerpIsFloor | generate_qr.py:47-49 | for non-negative stops, truncation toward zero equals the floor form c1 + ((c2-c1)*rem)/den |
| Gradient.FirstPixel | generate_qr.py:38-50 | pixel (0, 0) is the first stop |
| Gradient.UniformPalette | generate_qr.py:36-50 | when all stops are one colour, every pixel is that colour |
| Gradient.LastPixel | generate_qr.py:40-49 | the bottom-right pixel is in the last segment at ratio 1 - 2n/(w+h), so the ratio never reaches 1. Each channel is within \|c_n - c_(n-1)\| * 2n/(w+h) + 1 of the last stop, and may equal it |
| Gradient.GradientContinuity | generate_qr.py:38-49 | moving one pixel right or down changes each channel by at most n*M/(w+h) + 1, where one M bounds the step between adjacent stops in all three channels; this holds across segment boundaries too |
| Gradient.PixelContinuity | generate_qr.py:38-49 | the same bound for one channel, with M bounding the steps between adjacent stops in that channel only |
| Gradient.DiagonalGradient | generate_qr.py:31-52 | the fresh raster has size w x h, and every pixel is the gradient colour of its position |
| Stencil.Invert | generate_qr.py:72 | `255 - x` maps bytes to bytes, and the mask and the gray value sum to 255 |
| Stencil.InvertInvolution | generate_qr.py:72 | inverting twice gives the gray value back |
| Stencil.Select | generate_qr.py:75 | `Image.composite` at one pixel: the first image where the mask is 255, the second elsewhere. Its partners are StencilPixel and Composite |
| Stencil.StencilPixel | generate_qr.py:72-75 | a dark module (0) shows the gradient colour; a light module (255) shows white |
| Stencil.InvertRaster | generate_qr.py:72 | the mask has the raster's size, and each cell is the inverse of its gray value |
| Stencil.Composite | generate_qr.py:75 | the output has the images' size; where the mask is 255 it takes image1's pixel, elsewhere image2's |
| Stencil.GenerateQrColorGradient | generate_qr.py:55-77 | for a QR raster of 0/255 values, both outputs have the raster's size; the gradient is the diagonal gradient; every dark module is its gradient pixel and every light one is white |
| Stencil.UniformBlackIsPlain | generate_qr.py:65-75 | with the all-black palette, each stencilled pixel is the gray value of the QR raster: a plain black-on-white code |
| Logo.Scale90 | generate_qr.py:118-120 | `max(0, int(c*0.9))`. Its partner is Scale90Bounds |
| Logo.ColorizePixel | generate_qr.py:112-121 | one pixel of `colorize_logo`: transparent black if alpha is 0, else 90% of the reference colour with the pixel's alpha. Its partner is ColorizePixelSpec |
| Logo.BlackPixel | generate_qr.py:129-134 | one pixel of `force_black_logo`: transparent black if alpha is 0, else black with the pixel's alpha. Its partner is ForceBlackIsColorizeBlack |
| Logo.Scale90Bounds | generate_qr.py:118-120 | `max(0, int(c*0.9))` is non-negative, never above c, strictly below any positive c, and within one of 0.9c |
| Logo.ColorizePixelSpec | generate_qr.py:113-121 | alpha is kept; an invisible pixel becomes (0,0,0,0); a visible one takes 90% of the reference colour; byte inputs give byte outputs, each channel at most the reference |
| Logo.ForceBlackIsColorizeBlack | generate_qr.py:124-135 | forcing a pixel black is colourising it with black, and keeps its alpha |
| Logo.ColorizeLogo | generate_qr.py:108-122 | the fresh raster has the logo's size, and every pixel is the colourised logo pixel |
| Logo.ForceBlackLogo | generate_qr.py:124-135 | the fresh raster has the logo's size, and every pixel is the blackened logo pixel |
| Logo.AlphaSumKept | generate_qr.py:113-121 | colourising a run of pixels keeps its total alpha |
| Placement.LogoSize | generate_qr.py:143 | `qr_width // factor`. Its partners are CanvasInsideImage and OffCentreExample |
| Placement.BorderSize | generate_qr.py:151 | `int(logo_size * 1.3)`. Its partner is BorderBounds |
| Placement.LogoOffset | generate_qr.py:158 | each coordinate of `pos_logo`. Its partner is LogoInsideCanvas |
| Placement.PasteOrigin | generate_qr.py:162 | each coordinate of `pos_qr`, computed from the logo size. Its partners are CanvasInsideImage and PasteOffCentre |
| Placement.PastePixel | generate_qr.py:159-163 | an alpha-masked paste at one pixel: an opaque pixel replaces, a transparent one leaves, a partial one blends. Its partners are Paste and AddLogoWithBorder |
| Placement.BorderBounds | generate_qr.py:151 | the canvas is at least as large as the logo and at most 30% larger |
| Placement.LogoInsideCanvas | generate_qr.py:158 | pos_logo puts the logo inside the canvas, centred to within one pixel |
| Placement.CanvasInsideImage | generate_qr.py:142-162 | for factor >= 2 the logo fits the image, and the canvas pasted at pos_qr lies inside it |
| Placement.PasteOffCentre | generate_qr.py:158-162 | in doubled units, the canvas centre is (border_size - logo_size) - parity(W - logo_size) past the image centre; the logo centre is offset by the same amount less a second parity |
| Placement.OffCentreExample | generate_qr.py:142-162 | W = 290, factor 8: logo 36, canvas 46 at 127, so its centre is 5 px off the image centre |
| Placement.Paste | generate_qr.py:163 | `paste(src, box, src)`: inside the window, an opaque source pixel replaces, a transparent one leaves, a partial one blends; every other pixel keeps its value |
| Placement.BorderedLogo | generate_qr.py:151-159 | the canvas is border_size square; each pixel is the disc (white) or transparent, with the logo pasted at pos_logo under its own alpha |
| Placement.AddLogoWithBorder | generate_qr.py:137-165 | the QR image changes only inside the canvas window at pos_qr, where each pixel is the canvas pixel pasted under its own alpha |
| Domain.Lower | generate_qr.py:83 | `str.lower()` on ASCII letters: same length, each character mapped on its own. Its partners are LowerLetter, LowerKeeps and LowerSpec |
| Domain.LowerLetter | generate_qr.py:83 | against the tables "A…Z" and "a…z": the k-th upper-case letter becomes the k-th lower-case letter ('G' becomes 'g') |
| Domain.LowerKeeps | generate_qr.py:83 | every character that is not an upper-case ASCII letter is left unchanged |
| Domain.Split | generate_qr.py:83 | `str.split(sep)`. Its partners are SplitJoin, SplitPiecesFree, FirstPiece and LastPiece |
| Domain.ExtractDomain | generate_qr.py:79-91 | `extract_domain`, with the netloc from `urlparse` as an input. Its partners are ExtractDomainSpec, AtDomain and NetlocDomain |
| Domain.PlanFor | generate_qr.py:170-213 | the main flow's decision: no drawing for empty text, else the NO_COLORIZE branch or the gradient branch. Its partners are PlanSpec and EmptyTextNoPlan |
| Domain.LowerSpec | generate_qr.py:83 | lower-casing yields lower case, leaves lower case unchanged, and is idempotent |
| Domain.SplitJoin | generate_qr.py:83 | joining the pieces of `split(sep)` with sep gives the string back |
| Domain.SplitPiecesFree | generate_qr.py:83 | no piece of `split(sep)` contains sep |
| Domain.FirstPiece | generate_qr.py:174 | `split(sep)[0]` is the longest sep-free prefix: followed by sep, or the whole string |
| Domain.LastPiece | generate_qr.py:83 | `split(sep)[-1]` is the longest sep-free suffix: preceded by sep, or the whole string |
| Domain.ExtractDomainSpec | generate_qr.py:79-91 | empty text gives ""; text with '@' gives the lower-cased suffix after its last '@', which has no '@'; otherwise the lower-cased netloc minus one leading "www.", or "" if the URL parser raised; always lower case |
| Domain.AtDomain | generate_qr.py:82-83 | the '@' branch returns a lower-case, '@'-free suffix that directly follows an '@' |
| Domain.PlanSpec | generate_qr.py:170-213 | the gradient path runs exactly when the first label is not github, instagram or gmail; otherwise the palette is locked to "Black" and the logo forced black; the label is the longest '.'-free prefix of the domain (followed by '.' or the end), and both paths look up the logo file named by it |
| Domain.BrandDomainIsBlack | generate_qr.py:174-191 | a domain made of github, instagram or gmail, then '.', then anything ("github.com"), takes the black path: its label is the brand, the palette is "Black", the logo is forced black and there is no gradient |
| Domain.FirstLabelUnique | generate_qr.py:174 | a string has only one '.'-free prefix followed by '.' or the end, so the first label is well defined |
| Domain.DomainName | generate_qr.py:174 | `domain.split(".")[0].lower()`: the first label of the domain. Its partners are PlanSpec, FirstPiece and FirstLabelUnique |
| Domain.LogoStem | generate_qr.py:93-96 | the file stem `get_logo_image` looks up: nothing for an empty domain, else the first '.'-separated piece. Its partners are PlanSpec and FirstPiece |
| Domain.EmptyTextNoPlan | generate_qr.py:170 | empty input draws nothing |

## Left out

- The Streamlit UI (generate_qr.py:10-11, 167-234): page setup, selectbox, columns, display and download are presentation I/O. The palette the user picks is an input of `Domain.PlanFor`.
- QR encoding with `qrcode` (generate_qr.py:57-65, 192-200) is an external library. Its output is an input raster of gray values 0 and 255.
- Logo loading in `get_logo_image` (generate_qr.py:97-105) is file I/O and a foreign call (`cairosvg`). Only the file-stem rule of line 96 is modelled, as `Domain.LogoStem`.
- `urlparse` (generate_qr.py:85-86) is a library parser. Its netloc is an input; `None` stands for the parser raising.
- LANCZOS resizing (generate_qr.py:146) is library pixel arithmetic. The resized logo is an input of the right size.
- Ellipse rasterisation (generate_qr.py:156) is library pixel arithmetic. The disc is an input predicate over canvas pixels.
- PIL's blend for partially transparent pixels (generate_qr.py:159, 163) is library-internal. It is a function parameter.
- Sampling the centre colour of the coloured code (generate_qr.py:211) is a single `getpixel` read. The model does not connect it to the colour passed to `Logo.ColorizeLogo`.
- The RGBA conversions (generate_qr.py:139-140, 147-148, 208) are library conversions. The rasters are already RGBA.
- Saving the PNG (generate_qr.py:221-223) is I/O.
- Gradient.DiagonalGradient: the model uses exact rational arithmetic. The float code rounds `(x+y)/(w+h)*n` and the interpolated value, so where either lands exactly on an integer the float result may be one lower.
- Gradient.DiagonalGradient requires at least two stops; every palette in the table has five. With one stop, n = 0 and Python's negative indexing reads `colors[-1]` and `colors[0]`, both that stop; with none, `colors[-2]` raises IndexError at generate_qr.py:45. Neither case is modelled.
- Stencil.Composite requires a mask of 0s and 255s. PIL blends intermediate mask values, which a QR raster never holds.
- Domain.LowerSpec: lower-casing covers the ASCII letters only. Python's `str.lower()` also maps non-ASCII letters.
- Hex.HexDigit: `int(_, 16)` also accepts non-ASCII Unicode decimal digits. The model does not.
- The model has no class wrapping a PIL image. Rasters are plain `array2` values.
