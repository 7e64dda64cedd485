/** Domain policy: `extract_domain` (generate_qr.py:79-91), the first-label
    rule of the logo lookup (generate_qr.py:93-96, 174) and the
    `NO_COLORIZE` decision (generate_qr.py:23, 178-213).

    `urlparse` is not part of this model: its netloc is an input, `None`
    where the parser raises. Lower-casing covers the ASCII letters. */
module Domain {
  import opened Pixels

  /** `str.lower()` on one character. */
  function LowerChar(c: char): char
  {
    if 'A' <= c <= 'Z' then (c as int + 32) as char else c
  }

  /** `str.lower()`. */
  function Lower(s: string): (t: string)
    ensures |t| == |s| && forall i :: 0 <= i < |s| ==> t[i] == LowerChar(s[i])
  {
    seq(|s|, i requires 0 <= i < |s| => LowerChar(s[i]))
  }

  /** The ASCII letters, upper and lower case, in alphabetical order. */
  const Uppercase: string := "ABCDEFGHIJKLMNOPQRSTUVWXYZ"
  const Lowercase: string := "abcdefghijklmnopqrstuvwxyz"

  /** Each upper-case letter becomes the lower-case letter of the same place
      in the alphabet: 'G' becomes 'g'. */
  lemma LowerLetter(k: nat)
    requires k < 26
    ensures LowerChar(Uppercase[k]) == Lowercase[k]
  {
  }

  /** Every other character is left as it is. */
  lemma LowerKeeps(c: char)
    requires c !in Uppercase
    ensures LowerChar(c) == c
  {
    assert forall k :: 0 <= k < 26 ==> Uppercase[k] == ('A' as int + k) as char;
  }

  predicate IsLower(s: string) {
    forall i :: 0 <= i < |s| ==> !('A' <= s[i] <= 'Z')
  }

  /** Lower-casing yields a lower-case string and leaves one unchanged. */
  lemma LowerSpec(s: string)
    ensures IsLower(Lower(s))
    ensures IsLower(s) ==> Lower(s) == s
    ensures Lower(Lower(s)) == Lower(s)
  {
  }

  /** `s.split(sep)` for a one-character separator: the pieces between
      separators, always at least one. */
  function Split(s: string, sep: char): (parts: seq<string>)
    ensures |parts| >= 1
  {
    if s == [] then [[]]
    else
      var rest := Split(s[1..], sep);
      if s[0] == sep then [[]] + rest else [[s[0]] + rest[0]] + rest[1..]
  }

  /** `sep.join(parts)`. */
  function Join(parts: seq<string>, sep: char): string
    requires |parts| >= 1
  {
    if |parts| == 1 then parts[0] else parts[0] + [sep] + Join(parts[1..], sep)
  }

  /** Joining the pieces with the separator gives the string back. */
  lemma {:induction false} SplitJoin(s: string, sep: char)
    ensures Join(Split(s, sep), sep) == s
  {
    if s != [] {
      var rest := Split(s[1..], sep);
      SplitJoin(s[1..], sep);
      if s[0] == sep {
        assert Split(s, sep) == [[]] + rest;
      } else {
        var parts := Split(s, sep);
        assert parts[1..] == rest[1..];
        if |rest| == 1 {
          assert Join(parts, sep) == [s[0]] + rest[0];
        } else {
          assert Join(parts, sep) == [s[0]] + rest[0] + [sep] + Join(rest[1..], sep);
        }
      }
    }
  }

  /** No piece contains the separator. */
  lemma {:induction false} SplitPiecesFree(s: string, sep: char)
    ensures forall k :: 0 <= k < |Split(s, sep)| ==> sep !in Split(s, sep)[k]
  {
    if s != [] {
      SplitPiecesFree(s[1..], sep);
    }
  }

  /** `s.split(sep)[0]`: the longest prefix of s without the separator. */
  lemma {:induction false} FirstPiece(s: string, sep: char)
    ensures var f := Split(s, sep)[0];
      |f| <= |s| && f == s[..|f|] && sep !in f && (|f| < |s| ==> s[|f|] == sep)
  {
    if s != [] {
      FirstPiece(s[1..], sep);
    }
  }

  /** `s.split(sep)[-1]`: the longest suffix of s without the separator. */
  lemma {:induction false} LastPiece(s: string, sep: char)
    ensures var parts := Split(s, sep); var l := parts[|parts| - 1];
      |l| <= |s| && l == s[|s| - |l|..] && sep !in l && (|l| < |s| ==> s[|s| - |l| - 1] == sep)
  {
    if s != [] {
      var t := s[1..];
      LastPiece(t, sep);
      var rest := Split(t, sep);
      LastOfCons(s, sep);
      if s[0] == sep || |rest| >= 2 {
        var l := rest[|rest| - 1];
        if s[0] != sep {
          SplitJoin(t, sep);
          JoinHasSeparator(rest, sep);
        }
        assert t[|t| - |l|..] == s[|s| - |l|..];
      }
    }
  }

  /** How the last piece of s relates to the last piece of s[1..]. */
  lemma LastOfCons(s: string, sep: char)
    requires s != []
    ensures var rest := Split(s[1..], sep); var parts := Split(s, sep);
      (s[0] == sep || |rest| >= 2 ==> parts[|parts| - 1] == rest[|rest| - 1]) &&
      (s[0] != sep && |rest| == 1 ==> parts[|parts| - 1] == s)
  {
    var t := s[1..];
    var rest := Split(t, sep);
    if s[0] != sep && |rest| == 1 {
      SplitJoin(t, sep);
      assert [s[0]] + t == s;
    }
  }

  /** Two or more pieces are joined by at least one separator. */
  lemma JoinHasSeparator(parts: seq<string>, sep: char)
    requires |parts| >= 2
    ensures sep in Join(parts, sep)
  {
    assert Join(parts, sep)[|parts[0]|] == sep;
  }

  /** Drops one leading "www.". */
  function StripWww(d: string): string
  {
    if |d| >= 4 && d[..4] == "www." then d[4..] else d
  }

  /** `extract_domain(text)` with `urlparse(text).netloc` given as `netloc`. */
  function ExtractDomain(text: string, netloc: Option<string>): string
  {
    if text == [] then []
    else if '@' in text then
      var parts := Split(text, '@');
      Lower(parts[|parts| - 1])
    else
      match netloc
      case None => []
      case Some(n) => StripWww(Lower(n))
  }

  /** What `extract_domain` returns: empty for empty text; for text with an
      '@', the lower-cased suffix after its last '@' (which has no '@');
      otherwise the lower-cased netloc with one leading "www." removed, or
      empty if the URL parser raised. The result is always lower case. */
  lemma ExtractDomainSpec(text: string, netloc: Option<string>)
    ensures var d := ExtractDomain(text, netloc); IsLower(d)
    ensures text == [] ==> ExtractDomain(text, netloc) == []
    ensures text != [] && '@' in text ==>
      var d := ExtractDomain(text, netloc);
      |d| < |text| && d == Lower(text[|text| - |d|..]) && text[|text| - |d| - 1] == '@' && '@' !in d
    ensures text != [] && '@' !in text && netloc.None? ==> ExtractDomain(text, netloc) == []
    ensures text != [] && '@' !in text && netloc.Some? ==>
      var d := ExtractDomain(text, netloc); var l := Lower(netloc.value);
      (|l| >= 4 && l[..4] == "www." ==> d == l[4..]) && (!(|l| >= 4 && l[..4] == "www.") ==> d == l)
  {
    if text != [] {
      if '@' in text {
        AtDomain(text);
        var parts := Split(text, '@');
        assert ExtractDomain(text, netloc) == Lower(parts[|parts| - 1]);
      } else if netloc.Some? {
        NetlocDomain(netloc.value);
        assert ExtractDomain(text, netloc) == StripWww(Lower(netloc.value));
      }
    }
  }

  /** The '@' case of `extract_domain`. */
  lemma AtDomain(text: string)
    requires '@' in text
    ensures var parts := Split(text, '@'); var d := Lower(parts[|parts| - 1]);
      IsLower(d) && |d| < |text| && d == Lower(text[|text| - |d|..]) && text[|text| - |d| - 1] == '@' && '@' !in d
  {
    var parts := Split(text, '@');
    var l := parts[|parts| - 1];
    LastPiece(text, '@');
    LowerSpec(l);
    assert '@' !in Lower(l) by {
      forall i | 0 <= i < |l| ensures Lower(l)[i] != '@' {
        assert l[i] != '@';
      }
    }
  }

  /** The netloc case of `extract_domain`. */
  lemma NetlocDomain(n: string)
    ensures IsLower(StripWww(Lower(n)))
  {
    LowerSpec(n);
  }

  /** The brands for which the code stays black on white. */
  const NoColorize: set<string> := {"github", "instagram", "gmail"}

  /** `domain.split(".")[0].lower()` (generate_qr.py:174). */
  function DomainName(domain: string): string
  {
    Lower(Split(domain, '.')[0])
  }

  /** The file stem `get_logo_image(d)` looks up: None for an empty domain,
      else `d.split(".")[0]`. */
  function LogoStem(d: string): Option<string>
  {
    if d == [] then None else Some(Split(d, '.')[0])
  }

  datatype LogoMode = ForceBlack | Tint

  /** What one request decides before any pixel is drawn. */
  datatype Plan = Plan(domain: string, name: string, palette: string, paletteLocked: bool,
                       gradient: bool, logoStem: Option<string>, logoMode: LogoMode)

  /** The decisions of generate_qr.py:170-213 for input `text` and the
      palette the user picked; `None` when the text is empty and nothing is
      drawn. */
  function PlanFor(text: string, netloc: Option<string>, chosen: string): Option<Plan>
  {
    if text == [] then None
    else
      var domain := ExtractDomain(text, netloc);
      var name := DomainName(domain);
      if name in NoColorize then
        Some(Plan(domain, name, "Black", true, false, LogoStem(name), ForceBlack))
      else
        Some(Plan(domain, name, chosen, false, true, LogoStem(domain), Tint))
  }

  /** The policy: the gradient path is taken exactly when the first label of
      the domain is not one of the no-colorize brands; otherwise the palette
      is locked to "Black" and the logo is forced black. The label is the
      longest '.'-free prefix of the domain, and both paths look up the same logo
      file, the one named by that label. */
  lemma PlanSpec(text: string, netloc: Option<string>, chosen: string)
    requires text != []
    ensures PlanFor(text, netloc, chosen).Some?
    ensures var p := PlanFor(text, netloc, chosen).value;
      p.domain == ExtractDomain(text, netloc) &&
      (p.gradient <==> p.name !in NoColorize) &&
      p.paletteLocked == !p.gradient &&
      (p.paletteLocked ==> p.palette == "Black" && p.logoMode == ForceBlack) &&
      (!p.paletteLocked ==> p.palette == chosen && p.logoMode == Tint) &&
      '.' !in p.name && |p.name| <= |p.domain| && p.name == p.domain[..|p.name|] &&
      (|p.name| < |p.domain| ==> p.domain[|p.name|] == '.') &&
      p.logoStem == (if p.domain == [] then None else Some(p.name))
  {
    var domain := ExtractDomain(text, netloc);
    ExtractDomainSpec(text, netloc);
    FirstPiece(domain, '.');
    var first := Split(domain, '.')[0];
    assert IsLower(first);
    LowerSpec(first);
    var name := DomainName(domain);
    assert name == first;
    if name in NoColorize {
      assert name != [];
      FirstPiece(name, '.');
      assert Split(name, '.')[0] == name;
    }
  }

  /** A domain whose first label is one of the brands takes the black path,
      whatever follows the first '.': "github.com" draws a plain black code. */
  lemma BrandDomainIsBlack(text: string, netloc: Option<string>, chosen: string, brand: string, rest: string)
    requires text != [] && brand in NoColorize
    requires ExtractDomain(text, netloc) == brand + ['.'] + rest
    ensures var p := PlanFor(text, netloc, chosen).value;
      p.name == brand && !p.gradient && p.palette == "Black" && p.logoMode == ForceBlack
  {
    PlanSpec(text, netloc, chosen);
    var p := PlanFor(text, netloc, chosen).value;
    assert '.' !in brand;
    var d := brand + ['.'] + rest;
    assert d[..|brand|] == brand && d[|brand|] == '.';
    FirstLabelUnique(d, p.name, brand);
  }

  /** A string has one longest '.'-free prefix. */
  lemma FirstLabelUnique(d: string, a: string, b: string)
    requires |a| <= |d| && a == d[..|a|] && '.' !in a && (|a| < |d| ==> d[|a|] == '.')
    requires |b| <= |d| && b == d[..|b|] && '.' !in b && (|b| < |d| ==> d[|b|] == '.')
    ensures a == b
  {
    assert forall i :: 0 <= i < |a| ==> d[i] == a[i] != '.';
    assert forall i :: 0 <= i < |b| ==> d[i] == b[i] != '.';
  }

  /** The empty text draws nothing. */
  lemma EmptyTextNoPlan(netloc: Option<string>, chosen: string)
    ensures PlanFor([], netloc, chosen).None?
  {
  }
}
