/**
 * The colour-string layer of the inversion engines: `parseRgb`, which reads
 * the `rgb(...)`/`rgba(...)` texts a computed style produces, its serialiser
 * `rgbaToString`, and the colour maths (hue/saturation/lightness conversion,
 * luminance, contrast ratio) around which the engines are built.
 *
 * The floating-point formulas of the colour maths are not modelled: they are
 * the fields of a `Numerics` record of functions, so every property proved
 * here holds for whatever those formulas compute. What the source does
 * around them (the clamps, the lightness flip, the ratio of luminances, the
 * alpha that is carried along) is modelled.
 */
module Colors {
  import opened Wrappers
  import opened Text

  /** A parsed colour: channels are not clamped by the parser, alpha is. */
  datatype Rgba = Rgba(r: nat, g: nat, b: nat, a: real)

  datatype Hsl = Hsl(h: real, s: real, l: real)

  type NonNegReal = x: real | 0.0 <= x

  /**
   * The floating-point arithmetic, left abstract:
   * - `hslOf`: `rgbToHsl` before its final `clamp01` of saturation and lightness;
   * - `roundedRgbOf`: `hslToRgb` up to its `Math.round`, before the clamp to [0,255];
   * - `luminanceOf`: `relativeLuminance`, never negative for non-negative channels;
   * - `formatAlpha`: JavaScript's number-to-string conversion of an alpha value.
   */
  datatype Numerics = Numerics(
    hslOf: (nat, nat, nat) -> Hsl,
    roundedRgbOf: Hsl -> (int, int, int),
    luminanceOf: (nat, nat, nat) -> NonNegReal,
    formatAlpha: real -> string)

  /** `clamp01`. */
  function Clamp01(x: real): (r: real)
    ensures 0.0 <= r <= 1.0
    ensures 0.0 <= x <= 1.0 ==> r == x
    ensures x < 0.0 ==> r == 0.0
    ensures x > 1.0 ==> r == 1.0
  {
    if x < 0.0 then 0.0 else if x > 1.0 then 1.0 else x
  }

  /** `Math.min(255, Math.max(0, v))`. */
  function ClampChannel(v: int): (r: nat)
    ensures r <= 255
    ensures 0 <= v <= 255 ==> r == v
  {
    if v < 0 then 0 else if v > 255 then 255 else v
  }

  // ---------------------------------------------------------------------------
  // The accepted syntax: /^rgba?\((\d+),(\d+),(\d+)(?:,([0-9.]+))?\)$/i
  // ---------------------------------------------------------------------------

  /** `rgb` or `rgba`, each letter in either case. */
  predicate IsRgbPrefix(p: string) {
    (|p| == 3 || |p| == 4) && p[0] in "rR" && p[1] in "gG" && p[2] in "bB"
    && (|p| == 4 ==> p[3] in "aA")
  }

  /** The parts of a whitespace-free colour text that the regular expression captures. */
  datatype RgbSyntax = RgbSyntax(prefix: string, red: string, green: string, blue: string, alpha: Option<string>)

  predicate WellFormed(syn: RgbSyntax) {
    IsRgbPrefix(syn.prefix)
    && syn.red != [] && AllDigits(syn.red)
    && syn.green != [] && AllDigits(syn.green)
    && syn.blue != [] && AllDigits(syn.blue)
    && (syn.alpha.Some? ==> syn.alpha.value != [] && DecimalChars(syn.alpha.value))
  }

  function AlphaPart(alpha: Option<string>): string {
    match alpha
    case None => ""
    case Some(a) => "," + a
  }

  /** The text that the parts come from. */
  function Render(syn: RgbSyntax): string {
    syn.prefix + "(" + syn.red + "," + syn.green + "," + syn.blue + AlphaPart(syn.alpha) + ")"
  }

  /** Length of the longest prefix of decimal digits (`\d+` is greedy). */
  function DigitRun(s: string): (n: nat)
    ensures n <= |s| && AllDigits(s[..n])
    ensures n < |s| ==> !IsDigit(s[n])
  {
    if s != [] && IsDigit(s[0]) then
      var n := 1 + DigitRun(s[1..]);
      assert s[..n] == [s[0]] + s[1..][..n - 1];
      n
    else 0
  }

  /** Length of the longest prefix of digits and dots (`[0-9.]+` is greedy). */
  function AlphaRun(s: string): (n: nat)
    ensures n <= |s| && DecimalChars(s[..n])
    ensures n < |s| ==> !(IsDigit(s[n]) || s[n] == '.')
  {
    if s != [] && (IsDigit(s[0]) || s[0] == '.') then
      var n := 1 + AlphaRun(s[1..]);
      assert s[..n] == [s[0]] + s[1..][..n - 1];
      n
    else 0
  }

  /** A maximal run is exactly the run in front of a separator it cannot contain. */
  lemma {:induction false} DigitRunOf(d: string, rest: string)
    requires AllDigits(d)
    requires rest != [] && !IsDigit(rest[0])
    ensures DigitRun(d + rest) == |d|
  {
    if d != [] {
      assert (d + rest)[1..] == d[1..] + rest;
      DigitRunOf(d[1..], rest);
    } else {
      assert d + rest == rest;
    }
  }

  lemma {:induction false} AlphaRunOf(d: string, rest: string)
    requires DecimalChars(d)
    requires rest != [] && !(IsDigit(rest[0]) || rest[0] == '.')
    ensures AlphaRun(d + rest) == |d|
  {
    if d != [] {
      assert (d + rest)[1..] == d[1..] + rest;
      AlphaRunOf(d[1..], rest);
    } else {
      assert d + rest == rest;
    }
  }

  function PrefixLen(t: string): (k: nat)
    ensures k == 0 || (k <= |t| && IsRgbPrefix(t[..k]))
  {
    if |t| >= 3 && t[0] in "rR" && t[1] in "gG" && t[2] in "bB" then
      (if |t| >= 4 && t[3] in "aA" then 4 else 3)
    else 0
  }

  /** `\d+` followed by the separator `sep`: the digits and what follows the separator. */
  function TakeDigits(s: string, sep: char): Option<(string, string)> {
    var n := DigitRun(s);
    if n == 0 || n >= |s| || s[n] != sep then None else Some((s[..n], s[n + 1..]))
  }

  lemma TakeDigitsSound(s: string, sep: char)
    requires TakeDigits(s, sep).Some?
    ensures TakeDigits(s, sep).value.0 != [] && AllDigits(TakeDigits(s, sep).value.0)
    ensures s == TakeDigits(s, sep).value.0 + [sep] + TakeDigits(s, sep).value.1
  {
    var n := DigitRun(s);
    assert s == s[..n] + [sep] + s[n + 1..];
  }

  lemma TakeDigitsOf(d: string, sep: char, rest: string)
    requires d != [] && AllDigits(d) && !IsDigit(sep)
    ensures TakeDigits(d + [sep] + rest, sep) == Some((d, rest))
  {
    var s := d + [sep] + rest;
    assert s == d + ([sep] + rest);
    DigitRunOf(d, [sep] + rest);
    assert s[..|d|] == d;
    assert s[|d| + 1..] == rest;
  }

  /** The blue channel, then `)` or `,` alpha `)`, up to the end of the text. */
  function ScanTail(s: string): Option<(string, Option<string>)> {
    var n := DigitRun(s);
    if n == 0 || n >= |s| then None
    else if s[n..] == ")" then Some((s[..n], None))
    else if s[n] == ',' then
      var a := s[n + 1..];
      var m := AlphaRun(a);
      if m > 0 && a[m..] == ")" then Some((s[..n], Some(a[..m]))) else None
    else None
  }

  lemma ScanTailSound(s: string)
    requires ScanTail(s).Some?
    ensures ScanTail(s).value.0 != [] && AllDigits(ScanTail(s).value.0)
    ensures var alpha := ScanTail(s).value.1;
      alpha.Some? ==> alpha.value != [] && DecimalChars(alpha.value)
    ensures s == ScanTail(s).value.0 + AlphaPart(ScanTail(s).value.1) + ")"
  {
    var n := DigitRun(s);
    if s[n..] == ")" {
      CloseAt(s, n);
    } else {
      var a := s[n + 1..];
      AlphaAt(s, n, AlphaRun(a));
    }
  }

  lemma CloseAt(s: string, n: nat)
    requires n <= |s| && s[n..] == ")"
    ensures s == s[..n] + AlphaPart(None) + ")"
  {
    assert s == s[..n] + s[n..];
  }

  lemma AlphaAt(s: string, n: nat, m: nat)
    requires n < |s| && s[n] == ',' && m <= |s| - n - 1 && s[n + 1..][m..] == ")"
    ensures s == s[..n] + AlphaPart(Some(s[n + 1..][..m])) + ")"
  {
    var a := s[n + 1..];
    assert a == a[..m] + a[m..];
    assert s == s[..n] + [','] + a;
  }

  lemma ScanTailOf(blue: string, alpha: Option<string>)
    requires blue != [] && AllDigits(blue)
    requires alpha.Some? ==> alpha.value != [] && DecimalChars(alpha.value)
    ensures ScanTail(blue + AlphaPart(alpha) + ")") == Some((blue, alpha))
  {
    if alpha.None? {
      assert blue + AlphaPart(alpha) + ")" == blue + ")";
      ScanTailOfOpaque(blue);
    } else {
      assert blue + AlphaPart(alpha) + ")" == blue + ("," + alpha.value + ")");
      ScanTailOfAlpha(blue, alpha.value);
    }
  }

  lemma ScanTailOfOpaque(blue: string)
    requires blue != [] && AllDigits(blue)
    ensures ScanTail(blue + ")") == Some((blue, None))
  {
    var s := blue + ")";
    var n := |blue|;
    DigitRunOf(blue, ")");
    assert s[..n] == blue;
    assert s[n..] == ")";
  }

  lemma ScanTailOfAlpha(blue: string, a: string)
    requires blue != [] && AllDigits(blue)
    requires a != [] && DecimalChars(a)
    ensures ScanTail(blue + ("," + a + ")")) == Some((blue, Some(a)))
  {
    var after := "," + a + ")";
    var s := blue + after;
    var n := |blue|;
    DigitRunOf(blue, after);
    assert s[..n] == blue;
    assert s[n..] == after;
    var rest := s[n + 1..];
    assert rest == a + ")";
    AlphaRunOf(a, ")");
    assert rest[..|a|] == a;
    assert rest[|a|..] == ")";
  }

  /** The regular-expression match on a whitespace-free text. */
  function ScanRgb(t: string): Option<RgbSyntax> {
    var k := PrefixLen(t);
    if k == 0 || |t| <= k || t[k] != '(' then None
    else match TakeDigits(t[k + 1..], ',')
      case None => None
      case Some((red, rest1)) =>
        match TakeDigits(rest1, ',')
        case None => None
        case Some((green, rest2)) =>
          match ScanTail(rest2)
          case None => None
          case Some((blue, alpha)) => Some(RgbSyntax(t[..k], red, green, blue, alpha))
  }

  /** The text is put back together from the pieces the scanner split it into. */
  lemma RenderFromPieces(syn: RgbSyntax, t: string, s0: string, rest1: string, rest2: string)
    requires t == syn.prefix + "(" + s0
    requires s0 == syn.red + [','] + rest1
    requires rest1 == syn.green + [','] + rest2
    requires rest2 == syn.blue + AlphaPart(syn.alpha) + ")"
    ensures Render(syn) == t
  {
  }

  lemma SplitAt(t: string, k: nat)
    requires k < |t|
    ensures t == t[..k] + [t[k]] + t[k + 1..]
  {
  }

  /** The alpha part the scanner accepts is a non-empty decimal text. */
  lemma ScanRgbAlpha(t: string)
    requires ScanRgb(t).Some?
    ensures var alpha := ScanRgb(t).value.alpha; alpha.Some? ==> alpha.value != [] && DecimalChars(alpha.value)
  {
    ScanRgbSound(t);
  }

  /** Everything the scanner accepts is a well-formed colour text, and it reads its parts back. */
  lemma ScanRgbSound(t: string)
    requires ScanRgb(t).Some?
    ensures WellFormed(ScanRgb(t).value) && Render(ScanRgb(t).value) == t
  {
    var k := PrefixLen(t);
    var s0 := t[k + 1..];
    TakeDigitsSound(s0, ',');
    var p1 := TakeDigits(s0, ',').value;
    TakeDigitsSound(p1.1, ',');
    var p2 := TakeDigits(p1.1, ',').value;
    ScanTailSound(p2.1);
    var p3 := ScanTail(p2.1).value;
    var syn := RgbSyntax(t[..k], p1.0, p2.0, p3.0, p3.1);
    assert ScanRgb(t) == Some(syn);
    SplitAt(t, k);
    RenderFromPieces(syn, t, s0, p1.1, p2.1);
  }

  /** The scanner's first step on a prefix and an opening parenthesis. */
  lemma PrefixOpen(prefix: string, s0: string)
    requires IsRgbPrefix(prefix)
    ensures var t := prefix + "(" + s0;
      PrefixLen(t) == |prefix| && t[|prefix|] == '(' && t[..|prefix|] == prefix && t[|prefix| + 1..] == s0
  {
    var t := prefix + "(" + s0;
    assert t[..|prefix|] == prefix;
    assert t[|prefix| + 1..] == s0;
  }

  /** Every well-formed colour text is accepted, with exactly its own parts. */
  lemma ScanRgbComplete(syn: RgbSyntax)
    requires WellFormed(syn)
    ensures ScanRgb(Render(syn)) == Some(syn)
  {
    var tail := syn.blue + AlphaPart(syn.alpha) + ")";
    var rest1 := syn.green + [','] + tail;
    var s0 := syn.red + [','] + rest1;
    assert Render(syn) == syn.prefix + "(" + s0;
    PrefixOpen(syn.prefix, s0);
    TakeDigitsOf(syn.red, ',', rest1);
    TakeDigitsOf(syn.green, ',', tail);
    ScanTailOf(syn.blue, syn.alpha);
  }

  // ---------------------------------------------------------------------------
  // parseRgb and rgbaToString
  // ---------------------------------------------------------------------------

  /** The alpha a parsed colour gets: 1 when absent, NaN (`None`) for a malformed number. */
  function AlphaValue(alpha: Option<string>): Option<real>
    requires alpha.Some? ==> alpha.value != [] && DecimalChars(alpha.value)
  {
    match alpha
    case None => Some(1.0)
    case Some(a) => ParseDecimal(a)
  }

  /**
   * `parseRgb(colorStr)`: `null` for an empty text; otherwise whitespace is
   * deleted and the text must be `rgb(`/`rgba(` (any case), three digit runs
   * and an optional alpha of digits and dots; the alpha defaults to 1 and is
   * clamped into [0,1]; the channels are not clamped.
   */
  function ParseRgb(s: string): (r: Option<Rgba>)
    ensures r.Some? ==> 0.0 <= r.value.a <= 1.0
    ensures s == [] ==> r.None?
  {
    if s == [] then None
    else match ScanRgb(StripSpaces(s))
      case None => None
      case Some(syn) =>
        ScanRgbAlpha(StripSpaces(s));
        match AlphaValue(syn.alpha)
        case None => None
        case Some(a) =>
          Some(Rgba(DigitsValue(syn.red), DigitsValue(syn.green), DigitsValue(syn.blue), Clamp01(a)))
  }

  /**
   * Rejection: a text is parsed only if, once its whitespace is deleted, it
   * is a well-formed `rgb(...)`/`rgba(...)` text; hex, `hsl(...)`, named
   * colours and the like give `None`.
   */
  lemma ParseRgbOnlyRgbSyntax(s: string)
    requires ParseRgb(s).Some?
    ensures exists syn :: WellFormed(syn) && Render(syn) == StripSpaces(s)
  {
    ScanRgbSound(StripSpaces(s));
  }

  /** Acceptance: a well-formed text, whitespace anywhere, with a numeric alpha, is parsed to its values. */
  lemma ParseRgbAccepts(s: string, syn: RgbSyntax)
    requires WellFormed(syn) && StripSpaces(s) == Render(syn)
    requires AlphaValue(syn.alpha).Some?
    ensures ParseRgb(s) == Some(Rgba(DigitsValue(syn.red), DigitsValue(syn.green), DigitsValue(syn.blue),
                                     Clamp01(AlphaValue(syn.alpha).value)))
  {
    ScanRgbComplete(syn);
  }

  /** A malformed alpha number (`.` or `1.2.3`) makes the whole colour unparsable. */
  lemma ParseRgbBadAlpha(s: string, syn: RgbSyntax)
    requires WellFormed(syn) && StripSpaces(s) == Render(syn)
    requires syn.alpha.Some? && (!HasDigit(syn.alpha.value) || DotCount(syn.alpha.value) > 1)
    ensures ParseRgb(s) == None
  {
    ScanRgbComplete(syn);
  }

  /** `rgbaToString`: `rgb(r, g, b)` exactly when the clamped alpha is 1, else `rgba(r, g, b, a)`. */
  function RgbaToString(c: Rgba, formatAlpha: real -> string): (s: string)
    ensures StartsWith(s, "rgba(") <==> Clamp01(c.a) != 1.0
    ensures StartsWith(s, "rgb")
  {
    var alpha := Clamp01(c.a);
    if alpha == 1.0 then
      var s := "rgb(" + Join([NatToString(c.r), NatToString(c.g), NatToString(c.b)], ", ") + ")";
      assert s[..3] == "rgb" && s[3] == '(';
      s
    else
      var s := "rgba(" + Join([NatToString(c.r), NatToString(c.g), NatToString(c.b), formatAlpha(alpha)], ", ") + ")";
      assert s[..5] == "rgba(" && s[..3] == "rgb";
      s
  }

  /** `parts` separated by `sep`. */
  function Join(parts: seq<string>, sep: string): string
    requires parts != []
  {
    if |parts| == 1 then parts[0] else parts[0] + sep + Join(parts[1..], sep)
  }

  lemma StripCommaSpace(rest: string)
    ensures StripSpaces(", " + rest) == "," + StripSpaces(rest)
  {
    assert (", " + rest)[0] == ',';
    assert (", " + rest)[1..] == " " + rest;
    assert (" " + rest)[0] == ' ';
    assert (" " + rest)[1..] == rest;
  }

  lemma StripJoinStep(first: string, spaced: string, plain: string)
    requires NoSpace(first) && StripSpaces(spaced) == plain
    ensures StripSpaces(first + ", " + spaced) == first + "," + plain
  {
    assert first + ", " + spaced == first + (", " + spaced);
    StripSpacesConcat(first, ", " + spaced);
    StripSpacesNoSpace(first);
    StripCommaSpace(spaced);
  }

  /** Deleting whitespace from a `", "`-separated list of whitespace-free parts. */
  lemma {:induction false} StripJoin(parts: seq<string>)
    requires parts != []
    requires forall i :: 0 <= i < |parts| ==> NoSpace(parts[i])
    ensures StripSpaces(Join(parts, ", ")) == Join(parts, ",")
  {
    if |parts| == 1 {
      StripSpacesNoSpace(parts[0]);
    } else {
      StripJoin(parts[1..]);
      StripJoinStep(parts[0], Join(parts[1..], ", "), Join(parts[1..], ","));
    }
  }

  /** `prefix(` list `)` with the list's whitespace deleted. */
  lemma StripCall(opening: string, parts: seq<string>)
    requires NoSpace(opening) && parts != []
    requires forall i :: 0 <= i < |parts| ==> NoSpace(parts[i])
    ensures StripSpaces(opening + Join(parts, ", ") + ")") == opening + Join(parts, ",") + ")"
  {
    StripJoin(parts);
    StripSpacesConcat(opening + Join(parts, ", "), ")");
    StripSpacesConcat(opening, Join(parts, ", "));
    StripSpacesNoSpace(opening);
    StripSpacesNoSpace(")");
  }

  lemma JoinThree(x: string, y: string, z: string, sep: string)
    ensures Join([x, y, z], sep) == x + sep + y + sep + z
  {
    assert [x, y, z][1..] == [y, z];
    assert [y, z][1..] == [z];
    assert Join([y, z], sep) == y + sep + z;
    assert x + sep + (y + sep + z) == x + sep + y + sep + z;
  }

  lemma JoinFour(w: string, x: string, y: string, z: string, sep: string)
    ensures Join([w, x, y, z], sep) == w + sep + x + sep + y + sep + z
  {
    assert [w, x, y, z][1..] == [x, y, z];
    JoinThree(x, y, z, sep);
    assert w + sep + (x + sep + y + sep + z) == w + sep + x + sep + y + sep + z;
  }

  lemma OpaqueRender(red: string, green: string, blue: string)
    ensures Render(RgbSyntax("rgb", red, green, blue, None)) == "rgb(" + Join([red, green, blue], ",") + ")"
  {
    JoinThree(red, green, blue, ",");
    assert AlphaPart(None) == "";
    assert "rgb" + "(" == "rgb(";
  }

  lemma TranslucentRender(red: string, green: string, blue: string, t: string)
    ensures Render(RgbSyntax("rgba", red, green, blue, Some(t))) == "rgba(" + Join([red, green, blue, t], ",") + ")"
  {
    JoinFour(red, green, blue, t, ",");
    assert "rgba" + "(" == "rgba(";
  }

  /** The opaque serialisation, whitespace deleted, is the well-formed text of its channels. */
  lemma OpaqueText(red: string, green: string, blue: string)
    requires NoSpace(red) && NoSpace(green) && NoSpace(blue)
    ensures StripSpaces("rgb(" + Join([red, green, blue], ", ") + ")")
         == Render(RgbSyntax("rgb", red, green, blue, None))
  {
    var parts := [red, green, blue];
    assert forall i :: 0 <= i < |parts| ==> NoSpace(parts[i]);
    StripCall("rgb(", parts);
    OpaqueRender(red, green, blue);
  }

  /** The translucent serialisation, whitespace deleted, is the well-formed text of its channels and alpha. */
  lemma TranslucentText(red: string, green: string, blue: string, t: string)
    requires NoSpace(red) && NoSpace(green) && NoSpace(blue) && NoSpace(t)
    ensures StripSpaces("rgba(" + Join([red, green, blue, t], ", ") + ")")
         == Render(RgbSyntax("rgba", red, green, blue, Some(t)))
  {
    var parts := [red, green, blue, t];
    assert forall i :: 0 <= i < |parts| ==> NoSpace(parts[i]);
    StripCall("rgba(", parts);
    TranslucentRender(red, green, blue, t);
  }

  lemma RoundTripOpaque(c: Rgba, formatAlpha: real -> string)
    requires Clamp01(c.a) == 1.0
    ensures ParseRgb(RgbaToString(c, formatAlpha)) == Some(Rgba(c.r, c.g, c.b, 1.0))
  {
    var red, green, blue := NatToString(c.r), NatToString(c.g), NatToString(c.b);
    NatToStringValue(c.r);
    NatToStringValue(c.g);
    NatToStringValue(c.b);
    OpaqueText(red, green, blue);
    ParseRgbAccepts(RgbaToString(c, formatAlpha), RgbSyntax("rgb", red, green, blue, None));
  }

  lemma RoundTripTranslucent(c: Rgba, formatAlpha: real -> string)
    requires Clamp01(c.a) != 1.0
    requires var t := formatAlpha(Clamp01(c.a));
      t != [] && DecimalChars(t) && ParseDecimal(t) == Some(Clamp01(c.a))
    ensures ParseRgb(RgbaToString(c, formatAlpha)) == Some(Rgba(c.r, c.g, c.b, Clamp01(c.a)))
  {
    var red, green, blue := NatToString(c.r), NatToString(c.g), NatToString(c.b);
    NatToStringValue(c.r);
    NatToStringValue(c.g);
    NatToStringValue(c.b);
    var t := formatAlpha(Clamp01(c.a));
    assert NoSpace(t) by {
      forall i | 0 <= i < |t| ensures !IsSpace(t[i]) {
        assert IsDigit(t[i]) || t[i] == '.';
      }
    }
    TranslucentText(red, green, blue, t);
    ParseRgbAccepts(RgbaToString(c, formatAlpha), RgbSyntax("rgba", red, green, blue, Some(t)));
  }

  /**
   * Round trip: serialising a colour and parsing the text back gives the
   * colour with its alpha clamped, for an opaque colour, and for any other
   * colour whose alpha the number formatter prints as a plain decimal.
   */
  lemma RoundTrip(c: Rgba, formatAlpha: real -> string)
    requires Clamp01(c.a) != 1.0 ==>
      var t := formatAlpha(Clamp01(c.a));
      t != [] && DecimalChars(t) && ParseDecimal(t) == Some(Clamp01(c.a))
    ensures ParseRgb(RgbaToString(c, formatAlpha)) == Some(Rgba(c.r, c.g, c.b, Clamp01(c.a)))
  {
    if Clamp01(c.a) == 1.0 {
      RoundTripOpaque(c, formatAlpha);
    } else {
      RoundTripTranslucent(c, formatAlpha);
    }
  }

  // ---------------------------------------------------------------------------
  // Colour maths around the abstract formulas
  // ---------------------------------------------------------------------------

  /** `rgbToHsl`: saturation and lightness are clamped into [0,1]. */
  function RgbToHsl(num: Numerics, c: Rgba): (hsl: Hsl)
    ensures 0.0 <= hsl.s <= 1.0 && 0.0 <= hsl.l <= 1.0
  {
    var raw := num.hslOf(c.r, c.g, c.b);
    Hsl(raw.h, Clamp01(raw.s), Clamp01(raw.l))
  }

  /** `hslToRgb`: every channel is clamped into [0,255]. */
  function HslToRgb(num: Numerics, hsl: Hsl): (rgb: (nat, nat, nat))
    ensures rgb.0 <= 255 && rgb.1 <= 255 && rgb.2 <= 255
  {
    var raw := num.roundedRgbOf(hsl);
    (ClampChannel(raw.0), ClampChannel(raw.1), ClampChannel(raw.2))
  }

  /**
   * `invertRgbaByLightness` (and the older engine's `invertNeutralColor`):
   * lightness `l` becomes `1 - l`, hue and saturation are kept, the channels
   * come back in [0,255] and the alpha is carried over unchanged.
   */
  function InvertByLightness(num: Numerics, c: Rgba): (r: Rgba)
    ensures r.a == c.a
    ensures r.r <= 255 && r.g <= 255 && r.b <= 255
    ensures var hsl := RgbToHsl(num, c);
      (r.r, r.g, r.b) == HslToRgb(num, Hsl(hsl.h, hsl.s, 1.0 - hsl.l))
  {
    var hsl := RgbToHsl(num, c);
    var rgb := HslToRgb(num, Hsl(hsl.h, hsl.s, 1.0 - hsl.l));
    Rgba(rgb.0, rgb.1, rgb.2, c.a)
  }

  /** `relativeLuminance` of the channels (alpha is ignored). */
  function Luminance(num: Numerics, c: Rgba): NonNegReal {
    num.luminanceOf(c.r, c.g, c.b)
  }

  /** `contrastRatio`: (lighter + 0.05) / (darker + 0.05), never below 1, and 1 for equal channels. */
  function ContrastRatio(num: Numerics, c1: Rgba, c2: Rgba): (q: real)
    ensures q >= 1.0
    ensures (c1.r, c1.g, c1.b) == (c2.r, c2.g, c2.b) ==> q == 1.0
  {
    var l1, l2 := Luminance(num, c1), Luminance(num, c2);
    var lighter := if l1 >= l2 then l1 else l2;
    var darker := if l1 >= l2 then l2 else l1;
    RatioAtLeastOne(lighter + 0.05, darker + 0.05);
    (lighter + 0.05) / (darker + 0.05)
  }

  lemma RatioAtLeastOne(x: real, y: real)
    requires 0.0 < y <= x
    ensures x / y >= 1.0
    ensures x == y ==> x / y == 1.0
  {
    var q := x / y;
    assert q * y == x;
    assert (q - 1.0) * y == x - y;
  }

  /** The ratio does not depend on the order of its arguments. */
  lemma ContrastRatioSymmetric(num: Numerics, c1: Rgba, c2: Rgba)
    ensures ContrastRatio(num, c1, c2) == ContrastRatio(num, c2, c1)
  {
  }
}
