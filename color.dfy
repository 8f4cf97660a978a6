/**
 * Hex colour arithmetic: parsing `#rgb`, `#rrggbb` and `#rrggbbaa`,
 * the light/dark brightness test, and compositing a translucent colour
 * over a background. Channels are bytes; the floating-point formulas of
 * the original are stated here over exact integers, with the few colours
 * where `f32` rounding changes the answer listed explicitly.
 */
module Color {
  import opened Wrappers

  type Byte = x: int | 0 <= x < 256

  datatype Rgba = Rgba(r: Byte, g: Byte, b: Byte, a: Byte)

  datatype ColorError =
    | UnsupportedFormat  // the text does not start with '#'
    | InvalidLength      // after the leading '#'s, not 3, 6 or 8 characters
    | InvalidDigit       // a channel is not a hexadecimal number

  predicate IsHexDigit(c: char)
  {
    '0' <= c <= '9' || 'a' <= c <= 'f' || 'A' <= c <= 'F'
  }

  predicate IsLowerHexDigit(c: char)
  {
    '0' <= c <= '9' || 'a' <= c <= 'f'
  }

  function HexValue(c: char): (v: nat)
    requires IsHexDigit(c)
    ensures v < 16
  {
    if '0' <= c <= '9' then c as int - '0' as int
    else if 'a' <= c <= 'f' then c as int - 'a' as int + 10
    else c as int - 'A' as int + 10
  }

  /** The lower-case digit `{:x}` prints for a value below 16. */
  function LowerHexDigit(v: nat): (c: char)
    requires v < 16
    ensures IsLowerHexDigit(c) && IsHexDigit(c) && HexValue(c) == v
  {
    if v < 10 then ('0' as int + v) as char else ('a' as int + v - 10) as char
  }

  /** `format!("{:02x}", x)`: two lower-case digits whose value is `x`. */
  function ByteHex(x: Byte): (s: string)
    ensures |s| == 2 && IsLowerHexDigit(s[0]) && IsLowerHexDigit(s[1])
    ensures 16 * HexValue(s[0]) + HexValue(s[1]) == x
  {
    [LowerHexDigit(x / 16), LowerHexDigit(x % 16)]
  }

  /**
   * `u8::from_str_radix(t, 16)` on the two-character text `t = [hi, lo]`.
   * Rust accepts a leading '+' sign, so "+f" is 15; "++" is rejected.
   */
  function ParseByte(hi: char, lo: char): (r: Result<Byte, ColorError>)
    ensures r.Ok? <==> (hi == '+' || IsHexDigit(hi)) && IsHexDigit(lo)
    ensures r.Err? ==> r.error == InvalidDigit
  {
    if hi == '+' then
      if IsHexDigit(lo) then Ok(HexValue(lo)) else Err(InvalidDigit)
    else if IsHexDigit(hi) && IsHexDigit(lo) then Ok(16 * HexValue(hi) + HexValue(lo))
    else Err(InvalidDigit)
  }

  /** A two-character text `u8::from_str_radix` accepts: a hex digit or '+', then a hex digit. */
  predicate ValidPair(hi: char, lo: char)
  {
    (hi == '+' || IsHexDigit(hi)) && IsHexDigit(lo)
  }

  /**
   * The digits of a 3-, 6- or 8-character body are acceptable: in the
   * short form every character is a hex digit (each is read doubled, so a
   * '+' would be the second of its pair); in the long forms every pair is
   * a `ValidPair`.
   */
  predicate DigitsParse(body: string)
  {
    if |body| == 3 then
      IsHexDigit(body[0]) && IsHexDigit(body[1]) && IsHexDigit(body[2])
    else if |body| == 6 then
      ValidPair(body[0], body[1]) && ValidPair(body[2], body[3]) && ValidPair(body[4], body[5])
    else if |body| == 8 then
      ValidPair(body[0], body[1]) && ValidPair(body[2], body[3]) && ValidPair(body[4], body[5]) &&
      ValidPair(body[6], body[7])
    else false
  }

  /** `trim_start_matches('#')`: drops every leading '#', not just one. */
  function TrimLeadingHashes(s: string): (body: string)
    ensures |body| <= |s| && body == s[|s| - |body|..]
    ensures body == [] || body[0] != '#'
    ensures forall i :: 0 <= i < |s| - |body| ==> s[i] == '#'
  {
    if s != [] && s[0] == '#' then TrimLeadingHashes(s[1..]) else s
  }

  /** `parse_color`: (r, g, b, a) of `#rgb`, `#rrggbb` or `#rrggbbaa`. */
  function ParseColor(s: string): (r: Result<Rgba, ColorError>)
    ensures r == Err(UnsupportedFormat) <==> s == [] || s[0] != '#'
    ensures r == Err(InvalidLength) <==> s != [] && s[0] == '#' && |TrimLeadingHashes(s)| !in {3, 6, 8}
    ensures r.Ok? && |TrimLeadingHashes(s)| != 8 ==> r.value.a == 255
  {
    if s == [] || s[0] != '#' then Err(UnsupportedFormat)
    else ParseBody(TrimLeadingHashes(s))
  }

  /** The `match color.len()` of `parse_color`, on the text after the '#'s. */
  function ParseBody(body: string): (r: Result<Rgba, ColorError>)
    ensures r == Err(InvalidLength) <==> |body| !in {3, 6, 8}
    ensures r.Ok? && |body| != 8 ==> r.value.a == 255
  {
    if |body| == 3 then
      var r :- ParseByte(body[0], body[0]);
      var g :- ParseByte(body[1], body[1]);
      var b :- ParseByte(body[2], body[2]);
      Ok(Rgba(r, g, b, 255))
    else if |body| == 6 then
      var r :- ParseByte(body[0], body[1]);
      var g :- ParseByte(body[2], body[3]);
      var b :- ParseByte(body[4], body[5]);
      Ok(Rgba(r, g, b, 255))
    else if |body| == 8 then
      var r :- ParseByte(body[0], body[1]);
      var g :- ParseByte(body[2], body[3]);
      var b :- ParseByte(body[4], body[5]);
      var a :- ParseByte(body[6], body[7]);
      Ok(Rgba(r, g, b, a))
    else
      Err(InvalidLength)
  }

  /** The byte spelled by the two hex digits at `i` and `i + 1`. */
  function PairValue(body: string, i: nat): Byte
    requires i + 1 < |body| && IsHexDigit(body[i]) && IsHexDigit(body[i + 1])
  {
    16 * HexValue(body[i]) + HexValue(body[i + 1])
  }

  /** The 3-digit form means each digit doubled: `#abc` parses exactly as `#aabbcc`. */
  lemma ShortFormExpands(x: char, y: char, z: char)
    requires x != '#'
    ensures ParseColor(['#', x, y, z]) == ParseColor(['#', x, x, y, y, z, z])
  {
    assert TrimLeadingHashes(['#', x, y, z]) == [x, y, z];
    assert TrimLeadingHashes(['#', x, x, y, y, z, z]) == [x, x, y, y, z, z];
  }

  /** A 3-digit colour has each channel equal to its digit times 17, and is opaque. */
  lemma ShortFormChannels(x: char, y: char, z: char)
    requires IsHexDigit(x) && IsHexDigit(y) && IsHexDigit(z)
    ensures ParseColor(['#', x, y, z]) == Ok(Rgba(17 * HexValue(x), 17 * HexValue(y), 17 * HexValue(z), 255))
  {
    assert TrimLeadingHashes(['#', x, y, z]) == [x, y, z];
  }

  /**
   * A body of 6 or 8 hex digits (after any number of leading '#') gives
   * the bytes its digit pairs spell; alpha is the fourth pair or 255.
   */
  lemma LongFormChannels(s: string)
    requires s != [] && s[0] == '#'
    requires |TrimLeadingHashes(s)| in {6, 8}
    requires forall i :: 0 <= i < |TrimLeadingHashes(s)| ==> IsHexDigit(TrimLeadingHashes(s)[i])
    ensures var body := TrimLeadingHashes(s);
            ParseColor(s) == Ok(Rgba(PairValue(body, 0), PairValue(body, 2), PairValue(body, 4),
                                     if |body| == 8 then PairValue(body, 6) else 255))
  {
    LongBody(TrimLeadingHashes(s));
  }

  /** `LongFormChannels` on the text after the '#'s. */
  lemma LongBody(body: string)
    requires |body| in {6, 8}
    requires forall i :: 0 <= i < |body| ==> IsHexDigit(body[i])
    ensures ParseBody(body) == Ok(Rgba(PairValue(body, 0), PairValue(body, 2), PairValue(body, 4),
                                       if |body| == 8 then PairValue(body, 6) else 255))
  {
    assert IsHexDigit(body[0]) && IsHexDigit(body[1]) && IsHexDigit(body[2]);
    assert IsHexDigit(body[3]) && IsHexDigit(body[4]) && IsHexDigit(body[5]);
    PairParses(body, 0);
    PairParses(body, 2);
    PairParses(body, 4);
    if |body| == 8 {
      assert IsHexDigit(body[6]) && IsHexDigit(body[7]);
      PairParses(body, 6);
    }
  }

  lemma PairParses(body: string, i: nat)
    requires i + 1 < |body| && IsHexDigit(body[i]) && IsHexDigit(body[i + 1])
    ensures ParseByte(body[i], body[i + 1]) == Ok(PairValue(body, i))
  {
  }

  /** Any number of leading '#' is accepted: `##abc` is `#abc`. */
  lemma ExtraHashesIgnored(s: string)
    requires s != [] && s[0] == '#'
    ensures ParseColor("#" + s) == ParseColor(s)
  {
    assert ("#" + s)[1..] == s;
    assert TrimLeadingHashes("#" + s) == TrimLeadingHashes(s);
  }

  /** A '+' in front of a single digit is a valid pair: `#+f0000` is (15, 0, 0). */
  lemma PlusSignAccepted()
    ensures ParseColor("#+f0000") == Ok(Rgba(15, 0, 0, 255))
    ensures ParseColor("#+ab").Err?
  {
    var long := "+f0000";
    assert "#+f0000"[1..] == long;
    assert TrimLeadingHashes(long) == long;
    assert TrimLeadingHashes("#+f0000") == long;
    assert ParseByte(long[0], long[1]) == Ok(15);
    assert ParseByte(long[2], long[3]) == Ok(0);
    assert ParseByte(long[4], long[5]) == Ok(0);
    var short := "+ab";
    assert TrimLeadingHashes("#+ab") == short;
    assert ParseByte(short[0], short[0]).Err?;
  }

  /**
   * A body of 3, 6 or 8 characters parses iff its digits are acceptable;
   * otherwise the error is an invalid digit. A '+' anywhere in a
   * 3-character body makes it fail.
   */
  lemma ParseColorDigits(s: string)
    requires s != [] && s[0] == '#' && |TrimLeadingHashes(s)| in {3, 6, 8}
    ensures ParseColor(s).Ok? <==> DigitsParse(TrimLeadingHashes(s))
    ensures ParseColor(s).Err? ==> ParseColor(s).error == InvalidDigit
    ensures |TrimLeadingHashes(s)| == 3 && '+' in TrimLeadingHashes(s) ==> ParseColor(s) == Err(InvalidDigit)
  {
    BodyDigits(TrimLeadingHashes(s));
  }

  lemma BodyDigits(body: string)
    requires |body| in {3, 6, 8}
    ensures ParseBody(body).Ok? <==> DigitsParse(body)
    ensures ParseBody(body).Err? ==> ParseBody(body).error == InvalidDigit
    ensures |body| == 3 && '+' in body ==> ParseBody(body) == Err(InvalidDigit)
  {
    if |body| == 3 {
      assert '+' in body ==> body[0] == '+' || body[1] == '+' || body[2] == '+';
      assert ValidPair(body[0], body[0]) == IsHexDigit(body[0]);
      assert ValidPair(body[1], body[1]) == IsHexDigit(body[1]);
      assert ValidPair(body[2], body[2]) == IsHexDigit(body[2]);
    }
  }

  /** `#rrggbb` as `normalize_color` prints it. */
  function Hex6(r: Byte, g: Byte, b: Byte): (s: string)
    ensures |s| == 7 && s[0] == '#'
    ensures forall i :: 1 <= i < 7 ==> IsLowerHexDigit(s[i])
  {
    "#" + ByteHex(r) + ByteHex(g) + ByteHex(b)
  }

  /** `#rrggbbaa` for a colour with its alpha. */
  function Hex8(c: Rgba): (s: string)
    ensures |s| == 9 && s[0] == '#'
    ensures forall i :: 1 <= i < 9 ==> IsLowerHexDigit(s[i])
  {
    "#" + ByteHex(c.r) + ByteHex(c.g) + ByteHex(c.b) + ByteHex(c.a)
  }

  /** Printing then parsing a 6-digit colour gives back its channels, opaque. */
  lemma Hex6RoundTrip(r: Byte, g: Byte, b: Byte)
    ensures ParseColor(Hex6(r, g, b)) == Ok(Rgba(r, g, b, 255))
  {
    var s := Hex6(r, g, b);
    SingleHash(s);
    LongFormChannels(s);
  }

  /** Printing then parsing an 8-digit colour gives back all four channels. */
  lemma Hex8RoundTrip(c: Rgba)
    ensures ParseColor(Hex8(c)) == Ok(c)
  {
    var s := Hex8(c);
    SingleHash(s);
    LongFormChannels(s);
  }

  /** One '#' before a body that does not start with '#' is trimmed to that body. */
  lemma SingleHash(s: string)
    requires |s| >= 2 && s[0] == '#' && s[1] != '#'
    ensures TrimLeadingHashes(s) == s[1..]
  {
  }

  /** Perceived brightness, scaled by 1000: 0.299 R + 0.587 G + 0.114 B. */
  function Brightness(c: Rgba): nat
  {
    299 * c.r + 587 * c.g + 114 * c.b
  }

  /**
   * The colours whose brightness is exactly 128 but which `is_dark_color`
   * calls dark: for these eight, the `f32` sum `0.299 R + 0.587 G + 0.114 B`
   * rounds to 127.99999237, below 128. Every other colour gets the answer
   * of the exact comparison.
   */
  const RoundedDark: set<(Byte, Byte, Byte)> := {
    (0x4b, 0xaf, 0x19), (0x5e, 0x9c, 0x49), (0x71, 0x89, 0x79), (0x84, 0x76, 0xa9),
    (0xc7, 0x5d, 0x7a), (0xca, 0x72, 0x06), (0xda, 0x4a, 0xaa), (0xed, 0x37, 0xda)
  }

  /** The brightness test on parsed channels, with `f32` rounding at the threshold. */
  predicate DarkChannels(c: Rgba)
  {
    Brightness(c) < 128000 || (c.r, c.g, c.b) in RoundedDark
  }

  /** `is_dark_color`: brightness below 128; a text that does not parse is not dark. */
  predicate IsDarkColor(s: string)
  {
    match ParseColor(s)
    case Ok(c) => DarkChannels(c)
    case Err(_) => false
  }

  /**
   * The rounding only matters at the threshold: below 128 is dark, above
   * is light, and at exactly 128 only the eight rounded colours are dark.
   */
  lemma DarkChannelsThreshold(c: Rgba)
    ensures Brightness(c) < 128000 ==> DarkChannels(c)
    ensures Brightness(c) > 128000 ==> !DarkChannels(c)
    ensures Brightness(c) == 128000 ==> (DarkChannels(c) <==> (c.r, c.g, c.b) in RoundedDark)
  {
    if (c.r, c.g, c.b) in RoundedDark {
      RoundedDarkOnThreshold(c.r, c.g, c.b);
    }
  }

  /** Each rounded colour has brightness exactly 128. */
  lemma RoundedDarkOnThreshold(r: Byte, g: Byte, b: Byte)
    requires (r, g, b) in RoundedDark
    ensures 299 * r + 587 * g + 114 * b == 128000
  {
  }

  /** `#ca7206` sits exactly at brightness 128 and is still dark, as `f32` rounds it. */
  lemma RoundedBoundaryColour()
    ensures Brightness(Rgba(0xca, 0x72, 0x06, 255)) == 128000
    ensures IsDarkColor("#ca7206")
  {
    RoundedColourText();
    Hex6RoundTrip(0xca, 0x72, 0x06);
  }

  lemma RoundedColourText()
    ensures Hex6(0xca, 0x72, 0x06) == "#ca7206"
  {
    assert LowerHexDigit(12) == 'c' && LowerHexDigit(10) == 'a' && ByteHex(0xca) == "ca";
    assert LowerHexDigit(7) == '7' && LowerHexDigit(2) == '2' && ByteHex(0x72) == "72";
    assert LowerHexDigit(0) == '0' && LowerHexDigit(6) == '6' && ByteHex(0x06) == "06";
    assert Hex6(0xca, 0x72, 0x06) == "#" + "ca" + "72" + "06" == "#ca7206";
  }

  /** For greys the test splits exactly at 128: grey level 128 itself is light. */
  lemma GreyDarkBelowMidpoint(v: Byte)
    ensures IsDarkColor(Hex6(v, v, v)) <==> v < 128
  {
    Hex6RoundTrip(v, v, v);
  }

  /** The boundary among greys: mid grey `#808080` is light, one step darker is dark. */
  lemma DarkBoundary()
    ensures !IsDarkColor("#808080") && IsDarkColor("#7f7f7f")
  {
    MidGreyText();
    GreyDarkBelowMidpoint(128);
    DarkerGreyText();
    GreyDarkBelowMidpoint(127);
  }

  lemma MidGreyText()
    ensures Hex6(128, 128, 128) == "#808080"
  {
    assert LowerHexDigit(8) == '8' && LowerHexDigit(0) == '0';
    assert ByteHex(128) == "80";
    assert Hex6(128, 128, 128) == "#" + "80" + "80" + "80" == "#808080";
  }

  lemma DarkerGreyText()
    ensures Hex6(127, 127, 127) == "#7f7f7f"
  {
    assert LowerHexDigit(7) == '7' && LowerHexDigit(15) == 'f';
    assert ByteHex(127) == "7f";
    assert Hex6(127, 127, 127) == "#" + "7f" + "7f" + "7f" == "#7f7f7f";
  }

  /** A text that is not a colour is never dark. */
  lemma InvalidIsLight()
    ensures !IsDarkColor("808080") && !IsDarkColor("#80808")
  {
    assert "#80808"[1..] == "80808";
    assert TrimLeadingHashes("80808") == "80808";
  }

  /** `round(a/255 * f + (1 - a/255) * b)`: the foreground weighted by its alpha over the background. */
  function Blend(alpha: Byte, f: Byte, b: Byte): (v: Byte)
    ensures f <= b ==> f <= v <= b
    ensures b <= f ==> b <= v <= f
    ensures alpha == 255 ==> v == f
    ensures alpha == 0 ==> v == b
  {
    BlendBounds(alpha, f, b);
    (2 * (alpha * f + (255 - alpha) * b) + 255) / 510
  }

  lemma BlendBounds(alpha: Byte, f: Byte, b: Byte)
    ensures var v := (2 * (alpha * f + (255 - alpha) * b) + 255) / 510;
            && (f <= b ==> f <= v <= b)
            && (b <= f ==> b <= v <= f)
            && (alpha == 255 ==> v == f)
            && (alpha == 0 ==> v == b)
  {
    var lo := if f <= b then f else b;
    var hi := if f <= b then b else f;
    var n := 2 * (alpha * f + (255 - alpha) * b) + 255;
    assert alpha * f >= alpha * lo && (255 - alpha) * b >= (255 - alpha) * lo by {
      MulMonotone(alpha, lo, f);
      MulMonotone(255 - alpha, lo, b);
    }
    assert alpha * f <= alpha * hi && (255 - alpha) * b <= (255 - alpha) * hi by {
      MulMonotone(alpha, f, hi);
      MulMonotone(255 - alpha, b, hi);
    }
    assert alpha * lo + (255 - alpha) * lo == 255 * lo;
    assert alpha * hi + (255 - alpha) * hi == 255 * hi;
    DivBetween(n, 510, lo, hi);
    if alpha == 255 {
      DivExact(n, 510, f);
    }
    if alpha == 0 {
      DivExact(n, 510, b);
    }
  }

  lemma MulMonotone(k: nat, x: int, y: int)
    requires x <= y
    ensures k * x <= k * y
  {
  }

  lemma DivBetween(n: int, d: int, lo: int, hi: int)
    requires d > 0 && d * lo <= n < d * (hi + 1)
    ensures lo <= n / d <= hi
  {
    var q := n / d;
    assert d * q + n % d == n;
    if q < lo {
      MulMonotoneInt(d, q + 1, lo);
    }
    if q > hi {
      MulMonotoneInt(d, hi + 1, q);
    }
  }

  lemma MulMonotoneInt(d: nat, x: int, y: int)
    requires x <= y
    ensures d * x <= d * y
  {
  }

  lemma DivExact(n: int, d: int, q: int)
    requires d > 0 && d * q <= n < d * (q + 1)
    ensures n / d == q
  {
    DivBetween(n, d, q, q);
  }

  /**
   * `normalize_color(fg, bg)`: `fg` composited over `bg` by `fg`'s alpha,
   * printed as `#rrggbb` (the alpha is dropped). Fails when either
   * argument does not parse; `fg`'s error is reported first.
   */
  function NormalizeColor(fg: string, bg: string): (r: Result<string, ColorError>)
    ensures r.Ok? <==> ParseColor(fg).Ok? && ParseColor(bg).Ok?
    ensures ParseColor(fg).Err? ==> r == Err(ParseColor(fg).error)
    ensures r.Ok? ==> |r.value| == 7 && r.value[0] == '#' && forall i :: 1 <= i < 7 ==> IsLowerHexDigit(r.value[i])
  {
    var f :- ParseColor(fg);
    var b :- ParseColor(bg);
    Ok(Hex6(Blend(f.a, f.r, b.r), Blend(f.a, f.g, b.g), Blend(f.a, f.b, b.b)))
  }

  /** The normalised text parses back to the composited colour, fully opaque. */
  lemma NormalizedParsesBack(fg: string, bg: string)
    requires NormalizeColor(fg, bg).Ok?
    ensures var f := ParseColor(fg).value;
            var b := ParseColor(bg).value;
            ParseColor(NormalizeColor(fg, bg).value) ==
              Ok(Rgba(Blend(f.a, f.r, b.r), Blend(f.a, f.g, b.g), Blend(f.a, f.b, b.b), 255))
  {
    var f := ParseColor(fg).value;
    var b := ParseColor(bg).value;
    Hex6RoundTrip(Blend(f.a, f.r, b.r), Blend(f.a, f.g, b.g), Blend(f.a, f.b, b.b));
  }

  /** An opaque foreground hides the background: the result is the foreground's own RGB. */
  lemma NormalizeOpaque(fg: string, bg: string)
    requires ParseColor(fg).Ok? && ParseColor(bg).Ok? && ParseColor(fg).value.a == 255
    ensures var f := ParseColor(fg).value;
            NormalizeColor(fg, bg) == Ok(Hex6(f.r, f.g, f.b))
  {
  }

  /** A fully transparent foreground shows the background's RGB. */
  lemma NormalizeTransparent(fg: string, bg: string)
    requires ParseColor(fg).Ok? && ParseColor(bg).Ok? && ParseColor(fg).value.a == 0
    ensures var b := ParseColor(bg).value;
            NormalizeColor(fg, bg) == Ok(Hex6(b.r, b.g, b.b))
  {
  }

  /**
   * Compositing a colour over itself keeps its RGB whatever its alpha:
   * `normalize_color(c, c)` only validates and drops the alpha.
   */
  lemma NormalizeSelf(c: string)
    requires ParseColor(c).Ok?
    ensures var p := ParseColor(c).value;
            NormalizeColor(c, c) == Ok(Hex6(p.r, p.g, p.b))
  {
  }

  /** Normalising is idempotent: a normalised colour normalises to itself. */
  lemma NormalizeIdempotent(c: string)
    requires ParseColor(c).Ok?
    ensures NormalizeColor(NormalizeColor(c, c).value, NormalizeColor(c, c).value) == NormalizeColor(c, c)
  {
    var p := ParseColor(c).value;
    NormalizeSelf(c);
    Hex6RoundTrip(p.r, p.g, p.b);
    NormalizeSelf(Hex6(p.r, p.g, p.b));
  }
}
