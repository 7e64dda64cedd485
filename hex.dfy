/** Colour parsing: `hex_to_rgb` and the fixed palette table
    (generate_qr.py:13-28). */
module Hex {
  import opened Pixels

  /** The characters Python's `int()` strips around a numeral: below 127
      only the C-locale white space (tab, line feed, vertical tab, form feed,
      carriage return, space), so U+001C-U+001F are not stripped; above it
      every character `str.isspace` accepts. */
  predicate IsSpace(c: char) {
    if c <= ' ' then c == ' ' || '\t' <= c <= '\r'
    else
      ('\U{85}' <= c &&
       (c == '\U{85}' || c == '\U{a0}' || c == '\U{1680}'
        || '\U{2000}' <= c <= '\U{200a}' || c == '\U{2028}' || c == '\U{2029}'
        || c == '\U{202f}' || c == '\U{205f}' || c == '\U{3000}'))
  }

  /** A character `int(_, 16)` accepts as a digit. */
  predicate IsHexDigit(c: char) { '0' <= c <= '9' || 'a' <= c <= 'f' || 'A' <= c <= 'F' }

  /** The value of one base-16 digit, upper or lower case. */
  function HexDigit(c: char): (d: Option<nat>)
    ensures d.Some? ==> d.value < 16
    ensures d.Some? <==> IsHexDigit(c)
  {
    if '0' <= c <= '9' then Some(c as nat - '0' as nat)
    else if 'a' <= c <= 'f' then Some(c as nat - 'a' as nat + 10)
    else if 'A' <= c <= 'F' then Some(c as nat - 'A' as nat + 10)
    else None
  }

  /** `s.lstrip('#')`: drops every leading '#'. */
  function StripHashes(s: string): (t: string)
    ensures |t| <= |s| && t == s[|s| - |t|..]
    ensures forall i :: 0 <= i < |s| - |t| ==> s[i] == '#'
    ensures t == [] || t[0] != '#'
  {
    if |s| > 0 && s[0] == '#' then StripHashes(s[1..]) else s
  }

  /** Python's `s[i:j]` for `0 <= i <= j`: indices past the end are clipped. */
  function Slice(s: string, i: nat, j: nat): (t: string)
    requires i <= j
    ensures |t| <= j - i
  {
    if j <= |s| then s[i..j] else if i <= |s| then s[i..] else []
  }

  function TrimStart(s: string): string {
    if |s| > 0 && IsSpace(s[0]) then TrimStart(s[1..]) else s
  }

  function TrimEnd(s: string): string {
    if |s| > 0 && IsSpace(s[|s| - 1]) then TrimEnd(s[..|s| - 1]) else s
  }

  /** The value of a non-empty string of hex digits, most significant first. */
  function HexNumeral(ds: string): Option<nat>
  {
    if |ds| == 0 then None
    else
      match HexDigit(ds[|ds| - 1])
      case None => None
      case Some(d) =>
        if |ds| == 1 then Some(d)
        else
          match HexNumeral(ds[..|ds| - 1])
          case None => None
          case Some(v) => Some(16 * v + d)
  }

  /** `int(s, 16)` on a field of at most two characters; `None` where Python
      raises ValueError. On so short a field neither an underscore nor a
      "0x" prefix can be part of a valid numeral, so what is left is white
      space, an optional sign and the digits. */
  function ParseField(s: string): Option<int>
    requires |s| <= 2
  {
    var t := TrimEnd(TrimStart(s));
    if |t| > 0 && (t[0] == '+' || t[0] == '-') then
      match HexNumeral(t[1..])
      case None => None
      case Some(v) => var n: int := v; Some(if t[0] == '-' then -n else n)
    else
      match HexNumeral(t)
      case None => None
      case Some(v) => Some(v)
  }

  /** The three two-character fields [0:2], [2:4], [4:6] read with
      `int(_, 16)`; `None` if any of them raises. */
  function ReadFields(t: string): Option<Rgb>
  {
    var r, g, b := ParseField(Slice(t, 0, 2)), ParseField(Slice(t, 2, 4)), ParseField(Slice(t, 4, 6));
    if r.Some? && g.Some? && b.Some? then Some(Rgb(r.value, g.value, b.value)) else None
  }

  /** `hex_to_rgb`: strip leading '#' and read three fields. `None` stands
      for the ValueError Python raises. */
  function HexToRgb(s: string): Option<Rgb>
  {
    ReadFields(StripHashes(s))
  }

  predicate IsHexPrefixed(s: string, k: nat)
    requires k + 6 == |s|
  {
    (forall i :: 0 <= i < k ==> s[i] == '#') && (forall i :: k <= i < |s| ==> IsHexDigit(s[i]))
  }

  lemma TwoDigitField(s: string)
    requires |s| == 2 && IsHexDigit(s[0]) && IsHexDigit(s[1])
    ensures ParseField(s) == Some(16 * HexDigit(s[0]).value + HexDigit(s[1]).value)
  {
    assert TrimStart(s) == s;
    assert TrimEnd(s) == s;
    assert s[..1] == [s[0]];
    assert HexNumeral([s[0]]) == HexDigit(s[0]);
  }

  /** The byte written by the two hex digits t[i] t[i+1]. */
  function DigitPair(t: string, i: nat): (v: int)
    requires i + 1 < |t| && IsHexDigit(t[i]) && IsHexDigit(t[i + 1])
    ensures IsByte(v)
  {
    16 * HexDigit(t[i]).value + HexDigit(t[i + 1]).value
  }

  lemma SixDigitFields(t: string)
    requires |t| == 6 && forall i :: 0 <= i < 6 ==> IsHexDigit(t[i])
    ensures ReadFields(t) == Some(Rgb(DigitPair(t, 0), DigitPair(t, 2), DigitPair(t, 4)))
  {
    FieldAt(t, 0);
    FieldAt(t, 2);
    FieldAt(t, 4);
  }

  lemma FieldAt(t: string, i: nat)
    requires i + 2 <= |t| && IsHexDigit(t[i]) && IsHexDigit(t[i + 1])
    ensures ParseField(Slice(t, i, i + 2)) == Some(DigitPair(t, i))
  {
    assert Slice(t, i, i + 2) == t[i..i + 2];
    TwoDigitField(t[i..i + 2]);
  }

  /** For '#'* followed by six hex digits, each component is the byte its
      digit pair writes. */
  lemma HexToRgbOfDigits(s: string, k: nat)
    requires k + 6 == |s| && IsHexPrefixed(s, k)
    ensures HexToRgb(s) == Some(Rgb(DigitPair(s, k), DigitPair(s, k + 2), DigitPair(s, k + 4)))
  {
    var t := s[k..];
    assert IsHexDigit(s[k]);
    StripsExactly(s, k);
    SixDigitFields(t);
    assert DigitPair(t, 0) == DigitPair(s, k) && DigitPair(t, 2) == DigitPair(s, k + 2) && DigitPair(t, 4) == DigitPair(s, k + 4);
  }

  lemma {:induction false} StripsExactly(s: string, k: nat)
    requires k < |s| && s[k] != '#'
    requires forall i :: 0 <= i < k ==> s[i] == '#'
    ensures StripHashes(s) == s[k..]
  {
    if k > 0 {
      StripsExactly(s[1..], k - 1);
    }
  }

  /** With fewer than five characters left after the '#', the third field
      is empty and Python's int() raises. */
  lemma ShortInputFails(s: string)
    requires |StripHashes(s)| < 5
    ensures HexToRgb(s) == None
  {
    var t := StripHashes(s);
    assert Slice(t, 4, 6) == [];
    assert TrimEnd(TrimStart([])) == [];
  }

  /** White space is stripped around a field, but the ASCII information
      separators U+001C-U+001F are not white space to `int()`: a field
      " 1" reads as 1, while a field starting with U+001C raises. */
  lemma FieldSpacing()
    ensures ParseField([' ', '1']) == Some(1)
    ensures ParseField(['\U{1c}', '1']).None?
  {
  }

  /** The parser does not insist on digits: "#-1-1-1" has three signed
      fields and reads as (-1, -1, -1), so only well-formed input is sure
      to yield bytes. */
  lemma SignedFieldsParse(s: string)
    requires |s| == 7 && s[0] == '#'
    requires forall i :: 1 <= i < 7 ==> s[i] == (if i % 2 == 1 then '-' else '1')
    ensures HexToRgb(s) == Some(Rgb(-1, -1, -1))
  {
    StripsExactly(s, 1);
    MinusOneFields(s[1..]);
  }

  lemma MinusOneFields(t: string)
    requires |t| == 6 && forall i :: 0 <= i < 6 ==> t[i] == (if i % 2 == 0 then '-' else '1')
    ensures ReadFields(t) == Some(Rgb(-1, -1, -1))
  {
    assert Slice(t, 0, 2) == "-1" && Slice(t, 2, 4) == "-1" && Slice(t, 4, 6) == "-1";
    MinusOneField();
  }

  lemma MinusOneField()
    ensures ParseField("-1") == Some(-1)
  {
    var f := "-1";
    assert TrimStart(f) == f;
    assert TrimEnd(f) == f;
    assert f[1..] == "1";
    assert HexNumeral("1") == Some(1);
  }

  const HexDigits: string := "0123456789abcdef"

  /** The inverse direction: a byte colour written as "#rrggbb". */
  function ToHex(c: Rgb): (s: string)
    requires IsRgbByte(c)
    ensures |s| == 7 && s[0] == '#'
  {
    ['#', HexDigits[c.r / 16], HexDigits[c.r % 16],
     HexDigits[c.g / 16], HexDigits[c.g % 16],
     HexDigits[c.b / 16], HexDigits[c.b % 16]]
  }

  lemma DigitRoundTrip(v: nat)
    requires v < 16
    ensures HexDigit(HexDigits[v]) == Some(v)
  {
  }

  /** The upper-case digits, in order of value. */
  const UpperHexDigits: string := "0123456789ABCDEF"

  /** Upper-case digits have the same values as lower-case ones: 'A' is 10
      and 'F' is 15. */
  lemma UpperDigitValue(v: nat)
    requires v < 16
    ensures HexDigit(UpperHexDigits[v]) == Some(v)
    ensures HexDigit(UpperHexDigits[v]) == HexDigit(HexDigits[v])
  {
  }

  /** "#FFFFFF", in either case, is white. */
  lemma AllFIsWhite(h: string)
    requires |h| == 7 && h[0] == '#' && forall k :: 1 <= k < 7 ==> h[k] == 'F' || h[k] == 'f'
    ensures HexToRgb(h) == Some(Rgb(255, 255, 255))
  {
    assert IsHashHex(h);
    HashHexParses(h);
  }

  /** A "#rrggbb" string whose digit pairs are the quotient and remainder
      of each channel by 16 parses back to that colour. */
  lemma HashHexOfChannels(s: string, c: Rgb)
    requires IsHashHex(s) && IsRgbByte(c)
    requires HexDigit(s[1]).value == c.r / 16 && HexDigit(s[2]).value == c.r % 16
    requires HexDigit(s[3]).value == c.g / 16 && HexDigit(s[4]).value == c.g % 16
    requires HexDigit(s[5]).value == c.b / 16 && HexDigit(s[6]).value == c.b % 16
    ensures HexToRgb(s) == Some(c)
  {
    DivModSixteen(c.r);
    DivModSixteen(c.g);
    DivModSixteen(c.b);
    assert DigitPair(s, 1) == c.r && DigitPair(s, 3) == c.g && DigitPair(s, 5) == c.b;
    HashHexParses(s);
  }

  lemma DivModSixteen(v: int)
    ensures 16 * (v / 16) + v % 16 == v
  {
  }

  /** Writing a byte colour in hex and parsing it back gives the colour. */
  lemma HexRoundTrip(c: Rgb)
    requires IsRgbByte(c)
    ensures HexToRgb(ToHex(c)) == Some(c)
  {
    var s := ToHex(c);
    DigitRoundTrip(c.r / 16);
    DigitRoundTrip(c.r % 16);
    DigitRoundTrip(c.g / 16);
    DigitRoundTrip(c.g % 16);
    DigitRoundTrip(c.b / 16);
    DigitRoundTrip(c.b % 16);
    HashHexOfChannels(s, c);
  }

  /** `[hex_to_rgb(c) for c in colors_hex]`; `None` if any entry raises. */
  function ParsePalette(hexes: seq<string>): (cs: Option<seq<Rgb>>)
    ensures cs.Some? ==> |cs.value| == |hexes|
    ensures cs.Some? ==> forall i :: 0 <= i < |hexes| ==> HexToRgb(hexes[i]) == Some(cs.value[i])
    ensures cs.None? ==> exists i :: 0 <= i < |hexes| && HexToRgb(hexes[i]).None?
  {
    if hexes == [] then Some([])
    else
      match (HexToRgb(hexes[0]), ParsePalette(hexes[1..]))
      case (Some(c), Some(rest)) => Some([c] + rest)
      case (None, _) => None
      case (_, None) => None
  }

  /** "#rrggbb" with six hex digits, the shape every palette entry has. */
  predicate IsHashHex(s: string) {
    |s| == 7 && s[0] == '#' && IsHexDigit(s[1]) && IsHexDigit(s[2]) && IsHexDigit(s[3])
    && IsHexDigit(s[4]) && IsHexDigit(s[5]) && IsHexDigit(s[6])
  }

  lemma HashHexParses(h: string)
    requires IsHashHex(h)
    ensures HexToRgb(h) == Some(Rgb(DigitPair(h, 1), DigitPair(h, 3), DigitPair(h, 5)))
  {
    assert IsHexPrefixed(h, 1) by {
      forall j | 1 <= j < 7 ensures IsHexDigit(h[j]) {
        assert j == 1 || j == 2 || j == 3 || j == 4 || j == 5 || j == 6;
      }
    }
    HexToRgbOfDigits(h, 1);
  }

  lemma ParseHashHexes(hexes: seq<string>)
    requires forall i :: 0 <= i < |hexes| ==> IsHashHex(hexes[i])
    ensures ParsePalette(hexes).Some?
    ensures forall i :: 0 <= i < |hexes| ==> IsRgbByte(ParsePalette(hexes).value[i])
  {
    forall i | 0 <= i < |hexes| ensures HexToRgb(hexes[i]).Some? && IsRgbByte(HexToRgb(hexes[i]).value) {
      HashHexParses(hexes[i]);
    }
  }

  /** The seven palettes of the palette table, light to dark. */
  const BlackRow: seq<string> := seq(5, _ => "#000000")
  const BlueRow: seq<string> := ["#00c6ff", "#0072ff", "#0048ff", "#001f7f", "#00004d"]
  const GreenRow: seq<string> := ["#a8ff78", "#78ffd6", "#48ffbb", "#00b386", "#004d40"]
  const OrangeRow: seq<string> := ["#ffd194", "#ffba6f", "#ff8f43", "#d95c00", "#7f3300"]
  const PurpleRow: seq<string> := ["#d4a4ff", "#a766ff", "#7733ff", "#4d00b3", "#2a005d"]
  const PinkRow: seq<string> := ["#ffc0cb", "#ff99b6", "#ff6699", "#e60073", "#99004d"]
  const RedRow: seq<string> := ["#ff7f7f", "#ff4c4c", "#e60000", "#990000", "#4d0000"]

  /** The palette table, name -> five colour stops. */
  const Palettes: map<string, seq<string>> := map[
    "Black" := BlackRow,
    "Blue" := BlueRow,
    "Green" := GreenRow,
    "Orange" := OrangeRow,
    "Purple" := PurpleRow,
    "Pink" := PinkRow,
    "Red" := RedRow
  ]

  /** Every entry of a palette is written "#rrggbb". */
  predicate AllHashHex(hexes: seq<string>) {
    forall i :: 0 <= i < |hexes| ==> IsHashHex(hexes[i])
  }

  lemma TableWellFormed(name: string)
    requires name in Palettes
    ensures |Palettes[name]| == 5 && AllHashHex(Palettes[name])
  {
    RowsWellFormed();
  }

  lemma RowsWellFormed()
    ensures RowWellFormed(BlackRow) && RowWellFormed(BlueRow) && RowWellFormed(GreenRow)
    ensures RowWellFormed(OrangeRow) && RowWellFormed(PurpleRow) && RowWellFormed(PinkRow)
    ensures RowWellFormed(RedRow)
  {
    FiveHashHex(BlackRow);
    FiveHashHex(BlueRow);
    FiveHashHex(GreenRow);
    FiveHashHex(OrangeRow);
    FiveHashHex(PurpleRow);
    FiveHashHex(PinkRow);
    FiveHashHex(RedRow);
  }

  predicate RowWellFormed(hexes: seq<string>) {
    |hexes| == 5 && AllHashHex(hexes)
  }

  lemma FiveHashHex(hexes: seq<string>)
    requires |hexes| == 5
    requires IsHashHex(hexes[0]) && IsHashHex(hexes[1]) && IsHashHex(hexes[2])
    requires IsHashHex(hexes[3]) && IsHashHex(hexes[4])
    ensures AllHashHex(hexes)
  {
  }

  /** Every palette of the table parses to five byte colours, so each is a
      valid input to the gradient generator. */
  lemma PalettesParse(name: string)
    requires name in Palettes
    ensures ParsePalette(Palettes[name]).Some?
    ensures |ParsePalette(Palettes[name]).value| == 5
    ensures forall i :: 0 <= i < 5 ==> IsRgbByte(ParsePalette(Palettes[name]).value[i])
  {
    TableWellFormed(name);
    ParseHashHexes(Palettes[name]);
  }

  /** A palette whose entries are all the same well-formed string parses
      to copies of one colour. */
  lemma UniformPalette(hexes: seq<string>, h: string)
    requires IsHashHex(h) && forall i :: 0 <= i < |hexes| ==> hexes[i] == h
    ensures ParsePalette(hexes).Some?
    ensures forall i :: 0 <= i < |hexes| ==> ParsePalette(hexes).value[i] == HexToRgb(h).value
  {
    ParseHashHexes(hexes);
  }

  /** "#000000": a '#' and six zero digits. */
  predicate IsZeroHex(h: string) {
    |h| == 7 && h[0] == '#' && forall k :: 1 <= k < 7 ==> h[k] == '0'
  }

  /** "#000000" is black. */
  lemma ZeroHexIsBlack(h: string)
    requires IsZeroHex(h)
    ensures HexToRgb(h) == Some(Black)
  {
    assert IsHashHex(h);
    HashHexParses(h);
  }

  /** A palette of "#000000" entries parses to black stops only. */
  lemma ZeroPalette(hexes: seq<string>)
    requires forall i :: 0 <= i < |hexes| ==> IsZeroHex(hexes[i])
    ensures ParsePalette(hexes).Some? && |ParsePalette(hexes).value| == |hexes|
    ensures forall i :: 0 <= i < |hexes| ==> ParsePalette(hexes).value[i] == Black
  {
    forall i | 0 <= i < |hexes| ensures HexToRgb(hexes[i]) == Some(Black) {
      ZeroHexIsBlack(hexes[i]);
    }
  }

  /** The "Black" palette is five copies of black. */
  lemma BlackPalette()
    ensures ParsePalette(Palettes["Black"]).Some?
    ensures |ParsePalette(Palettes["Black"]).value| == 5
    ensures forall i :: 0 <= i < 5 ==> ParsePalette(Palettes["Black"]).value[i] == Black
  {
    BlackEntry();
    BlackRowIsZero();
    ZeroPalette(BlackRow);
  }

  lemma BlackEntry()
    ensures "Black" in Palettes && Palettes["Black"] == BlackRow
  {
  }

  lemma BlackRowIsZero()
    ensures |BlackRow| == 5 && forall i :: 0 <= i < 5 ==> IsZeroHex(BlackRow[i])
  {
    var z := "#000000";
    assert |z| == 7 && z[0] == '#';
    assert z[1] == '0' && z[2] == '0' && z[3] == '0' && z[4] == '0' && z[5] == '0' && z[6] == '0';
    assert IsZeroHex(z);
    assert forall i :: 0 <= i < 5 ==> BlackRow[i] == z;
  }
}
