/** Colour-space primitives of colors/ChineseColors.py: hex parsing and
    formatting, RGB to HSV, the circular hue distance, and the LAB view,
    which is kept abstract (its gamma curve, cube root and square roots are
    transcendental). */
module ColorSpace {
  import opened Common

  type Channel = x: int | 0 <= x <= 255

  datatype Rgb = Rgb(r: Channel, g: Channel, b: Channel)

  /** Hue in degrees, saturation and value in [0, 1]. */
  datatype Hsv = Hsv(h: real, s: real, v: real)

  predicate IsHexDigit(c: char) {
    '0' <= c <= '9' || 'a' <= c <= 'f' || 'A' <= c <= 'F'
  }

  function HexDigitValue(c: char): (d: nat)
    requires IsHexDigit(c)
    ensures d < 16
  {
    if '0' <= c <= '9' then c as int - '0' as int
    else if 'a' <= c <= 'f' then c as int - 'a' as int + 10
    else c as int - 'A' as int + 10
  }

  /** Python's `s.lstrip("#")`. */
  function StripHashes(s: string): string {
    if s != [] && s[0] == '#' then StripHashes(s[1..]) else s
  }

  /** `lstrip` removes a prefix of '#' characters and stops at the first other one. */
  lemma {:induction false} StripHashesFacts(s: string)
    ensures |StripHashes(s)| <= |s| && StripHashes(s) == s[|s| - |StripHashes(s)|..]
    ensures forall i :: 0 <= i < |s| - |StripHashes(s)| ==> s[i] == '#'
    ensures StripHashes(s) == [] || StripHashes(s)[0] != '#'
  {
    if s != [] && s[0] == '#' {
      var t := StripHashes(s[1..]);
      StripHashesFacts(s[1..]);
      assert StripHashes(s) == t;
      assert s[1..][|s| - 1 - |t|..] == s[|s| - |t|..];
      forall i | 0 <= i < |s| - |t| ensures s[i] == '#' {
        if i > 0 {
          assert s[i] == s[1..][i - 1];
        }
      }
    } else {
      assert s[0..] == s;
    }
  }

  /** Python's slice `s[i:j]` for 0 <= i <= j: both ends are clamped to the length. */
  function Slice(s: string, i: nat, j: nat): (f: string)
    requires i <= j
    ensures |f| <= j - i
  {
    if |s| <= i then [] else if |s| <= j then s[i..] else s[i..j]
  }

  /** Python's `int(f, 16)` on a field of at most two characters, for fields
      made of ASCII hex digits; an empty field or any other character is a
      `ValueError`. */
  function ParseHexField(f: string): (r: Option<Channel>)
    requires |f| <= 2
    ensures r.Some? <==> 1 <= |f| && forall i :: 0 <= i < |f| ==> IsHexDigit(f[i])
  {
    if |f| == 1 && IsHexDigit(f[0]) then Some(HexDigitValue(f[0]))
    else if |f| == 2 && IsHexDigit(f[0]) && IsHexDigit(f[1]) then
      Some(16 * HexDigitValue(f[0]) + HexDigitValue(f[1]))
    else None
  }

  /** The field `t[i:i+2]` of `hex_to_rgb`: it parses exactly when its first
      character exists and is a hex digit and so is its second, if any. */
  function FieldAt(t: string, i: nat): (r: Option<Channel>)
    ensures r.Some? <==> i < |t| && IsHexDigit(t[i]) && (|t| == i + 1 || IsHexDigit(t[i + 1]))
  {
    var f := Slice(t, i, i + 2);
    assert |t| > i + 1 ==> f == [t[i], t[i + 1]];
    assert |t| == i + 1 ==> f == [t[i]];
    ParseHexField(f)
  }

  /** The strings `hex_to_rgb` accepts: after the leading '#' characters,
      five hex digits, then either the end of the string or a sixth digit. */
  predicate AcceptedHex(s: string) {
    var t := StripHashes(s);
    |t| >= 5 && (forall i :: 0 <= i < 5 ==> IsHexDigit(t[i])) && (|t| == 5 || IsHexDigit(t[5]))
  }

  /** `hex_to_rgb`: three two-character fields after the leading '#'s,
      parsed in the order red, green, blue; the first field `int(..., 16)`
      rejects is the literal its `ValueError` names. */
  function HexToRgb(s: string): Result<Rgb> {
    var t := StripHashes(s);
    var red, green, blue := FieldAt(t, 0), FieldAt(t, 2), FieldAt(t, 4);
    if red.None? then Err(FormatError(Slice(t, 0, 2)))
    else if green.None? then Err(FormatError(Slice(t, 2, 4)))
    else if blue.None? then Err(FormatError(Slice(t, 4, 6)))
    else Ok(Rgb(red.value, green.value, blue.value))
  }

  /** Field `k` (of red, green, blue) does not parse, and every earlier one does. */
  predicate FirstBadField(t: string, k: int) {
    0 <= k < 3 && FieldAt(t, 2 * k).None? && forall k' :: 0 <= k' < k ==> FieldAt(t, 2 * k').Some?
  }

  /** `hex_to_rgb` raises `ValueError` exactly when the string is not
      accepted, and the error names the first of the three fields that does
      not parse. */
  lemma HexToRgbAccepts(s: string)
    ensures HexToRgb(s).Ok? <==> AcceptedHex(s)
    ensures HexToRgb(s).Err? ==>
      exists k :: FirstBadField(StripHashes(s), k) &&
                  HexToRgb(s).error == FormatError(Slice(StripHashes(s), 2 * k, 2 * k + 2))
  {
    var t := StripHashes(s);
    if FieldAt(t, 0).None? {
      assert FirstBadField(t, 0) && Slice(t, 2 * 0, 2 * 0 + 2) == Slice(t, 0, 2);
    } else if FieldAt(t, 2).None? {
      assert FirstBadField(t, 1) && Slice(t, 2 * 1, 2 * 1 + 2) == Slice(t, 2, 4);
    } else if FieldAt(t, 4).None? {
      assert forall k' :: 0 <= k' < 2 ==> FieldAt(t, 2 * k').Some? by {
        forall k' | 0 <= k' < 2 ensures FieldAt(t, 2 * k').Some? {
          if k' == 1 { assert 2 * k' == 2; } else { assert 2 * k' == 0; }
        }
      }
      assert FirstBadField(t, 2) && Slice(t, 2 * 2, 2 * 2 + 2) == Slice(t, 4, 6);
    }
  }

  /** Upper-case digit of `{:02X}` formatting. */
  function UpperHexDigit(d: nat): (c: char)
    requires d < 16
    ensures IsHexDigit(c) && HexDigitValue(c) == d
  {
    if d < 10 then ('0' as int + d) as char else ('A' as int + d - 10) as char
  }

  predicate IsUpperHexDigit(c: char) {
    '0' <= c <= '9' || 'A' <= c <= 'F'
  }

  /** The canonical spelling `#RRGGBB` with upper-case digits. */
  predicate IsCanonicalHex(s: string) {
    |s| == 7 && s[0] == '#' && forall i :: 1 <= i < 7 ==> IsUpperHexDigit(s[i])
  }

  /** `f"{x:02X}"` for a channel. */
  function ChannelToHex(x: Channel): (s: string)
    ensures |s| == 2 && IsUpperHexDigit(s[0]) && IsUpperHexDigit(s[1])
  {
    [UpperHexDigit(x / 16), UpperHexDigit(x % 16)]
  }

  /** `f"#{r:02X}{g:02X}{b:02X}"`, the spelling the catalog uses. */
  function RgbToHex(c: Rgb): (s: string)
    ensures IsCanonicalHex(s)
  {
    "#" + ChannelToHex(c.r) + ChannelToHex(c.g) + ChannelToHex(c.b)
  }

  lemma ChannelField(x: Channel)
    ensures ParseHexField(ChannelToHex(x)) == Some(x)
  {
  }

  /** Parsing a formatted colour gives the colour back. */
  lemma {:induction false} RgbToHexRoundTrip(c: Rgb)
    ensures HexToRgb(RgbToHex(c)) == Ok(c)
  {
    var s := RgbToHex(c);
    assert StripHashes(s) == s[1..] by {
      assert s[1..][0] != '#';
    }
    var t := s[1..];
    assert Slice(t, 0, 2) == ChannelToHex(c.r);
    assert Slice(t, 2, 4) == ChannelToHex(c.g);
    assert Slice(t, 4, 6) == ChannelToHex(c.b);
    ChannelField(c.r);
    ChannelField(c.g);
    ChannelField(c.b);
  }

  lemma UpperDigitRoundTrip(c: char)
    requires IsUpperHexDigit(c)
    ensures UpperHexDigit(HexDigitValue(c)) == c
  {
  }

  /** A field of two upper-case digits is the formatting of what it parses to. */
  lemma UpperFieldRoundTrip(t: string, i: nat)
    requires i + 1 < |t| && IsUpperHexDigit(t[i]) && IsUpperHexDigit(t[i + 1])
    ensures FieldAt(t, i).Some? && ChannelToHex(FieldAt(t, i).value) == t[i..i + 2]
  {
    var x := FieldAt(t, i).value;
    assert x == 16 * HexDigitValue(t[i]) + HexDigitValue(t[i + 1]);
    assert x / 16 == HexDigitValue(t[i]) && x % 16 == HexDigitValue(t[i + 1]);
    UpperDigitRoundTrip(t[i]);
    UpperDigitRoundTrip(t[i + 1]);
  }

  /** Formatting a parsed canonical string gives the string back. */
  lemma {:induction false} CanonicalHexRoundTrip(s: string)
    requires IsCanonicalHex(s)
    ensures HexToRgb(s).Ok? && RgbToHex(HexToRgb(s).value) == s
  {
    var t := s[1..];
    assert StripHashes(s) == t by {
      assert IsUpperHexDigit(s[1]);
      assert StripHashes(t) == t;
    }
    assert forall i :: 0 <= i < 6 ==> IsUpperHexDigit(t[i]) by {
      forall i | 0 <= i < 6 ensures IsUpperHexDigit(t[i]) {
        assert t[i] == s[i + 1];
      }
    }
    UpperFieldRoundTrip(t, 0);
    UpperFieldRoundTrip(t, 2);
    UpperFieldRoundTrip(t, 4);
    var c := HexToRgb(s).value;
    assert c == Rgb(FieldAt(t, 0).value, FieldAt(t, 2).value, FieldAt(t, 4).value);
    assert s == "#" + t[0..2] + t[2..4] + t[4..6];
  }

  /** A colour of the pipeline. Every colour the program handles is spelled
      `#RRGGBB` with upper-case digits (the fixed base colours and the
      `f"#{r:02X}{g:02X}{b:02X}"` spelling of each catalog row), so it parses;
      set membership and equality are by string. */
  type Hex = s: string | IsCanonicalHex(s) witness "#000000"

  /** The channel spelled by the two digits `h[i]` and `h[i + 1]`. */
  function ChannelAt(h: Hex, i: nat): Channel
    requires 1 <= i <= 5
  {
    assert IsUpperHexDigit(h[i]) && IsUpperHexDigit(h[i + 1]);
    16 * HexDigitValue(h[i]) + HexDigitValue(h[i + 1])
  }

  /** The channels of a pipeline colour, read from its three digit pairs. */
  function RgbOf(h: Hex): Rgb {
    Rgb(ChannelAt(h, 1), ChannelAt(h, 3), ChannelAt(h, 5))
  }

  /** They are what `hex_to_rgb` returns for it. */
  lemma RgbOfParses(h: Hex)
    ensures HexToRgb(h) == Ok(RgbOf(h))
  {
    var t := h[1..];
    assert StripHashes(h) == t by {
      assert IsUpperHexDigit(h[1]);
      assert StripHashes(t) == t;
    }
    forall i | 0 <= i < 3 ensures FieldAt(t, 2 * i) == Some(ChannelAt(h, 2 * i + 1)) {
      assert IsUpperHexDigit(h[2 * i + 1]) && IsUpperHexDigit(h[2 * i + 2]);
      assert Slice(t, 2 * i, 2 * i + 2) == [h[2 * i + 1], h[2 * i + 2]];
    }
  }

  function Max3(x: real, y: real, z: real): (m: real)
    ensures m >= x && m >= y && m >= z && (m == x || m == y || m == z)
  {
    if x >= y && x >= z then x else if y >= z then y else z
  }

  function Min3(x: real, y: real, z: real): (m: real)
    ensures m <= x && m <= y && m <= z && (m == x || m == y || m == z)
  {
    if x <= y && x <= z then x else if y <= z then y else z
  }

  /** Python's float `x % 6`: the remainder takes the sign of the divisor. */
  function FloorMod6(x: real): (r: real)
    ensures 0.0 <= r < 6.0
    ensures 0.0 <= x < 6.0 ==> r == x
    ensures -6.0 <= x < 0.0 ==> r == x + 6.0
  {
    x - 6.0 * ((x / 6.0).Floor as real)
  }

  /** `x / d` lies in [-1, 1] when |x| <= d. */
  lemma DivUnit(x: real, d: real)
    requires d > 0.0 && -d <= x <= d
    ensures -1.0 <= x / d <= 1.0
  {
    assert d * (x / d) == x;
  }

  /** `S = delta / max_val`, or 0 for black. */
  function Saturation(maxVal: real, delta: real): (s: real)
    requires 0.0 <= delta <= maxVal
    ensures 0.0 <= s <= 1.0
    ensures maxVal == 0.0 || delta == 0.0 ==> s == 0.0
  {
    if maxVal == 0.0 then 0.0 else (DivUnit(delta, maxVal); delta / maxVal)
  }

  /** The hue branches of `rgb_to_hsv`, before the `H < 0` correction. */
  function RawHue(r: real, g: real, b: real, maxVal: real, delta: real): (h: real)
    requires maxVal == Max3(r, g, b) && delta == maxVal - Min3(r, g, b)
    ensures 0.0 <= h < 360.0
    ensures delta == 0.0 ==> h == 0.0
  {
    if delta == 0.0 then 0.0
    else if maxVal == r then
      60.0 * FloorMod6((g - b) / delta)
    else if maxVal == g then
      (DivUnit(b - r, delta); 60.0 * ((b - r) / delta + 2.0))
    else
      (DivUnit(r - g, delta); 60.0 * ((r - g) / delta + 4.0))
  }

  /** `rgb_to_hsv`, in exact real arithmetic on the channels divided by 255. */
  function RgbToHsv(c: Rgb): (hsv: Hsv)
    ensures 0.0 <= hsv.h < 360.0 && 0.0 <= hsv.s <= 1.0 && 0.0 <= hsv.v <= 1.0
    ensures c.r == c.g == c.b ==> hsv.h == 0.0 && hsv.s == 0.0
    ensures c.r == c.g == c.b == 0 ==> hsv.v == 0.0
  {
    var r, g, b := c.r as real / 255.0, c.g as real / 255.0, c.b as real / 255.0;
    var maxVal := Max3(r, g, b);
    var minVal := Min3(r, g, b);
    var delta := maxVal - minVal;
    var h0 := RawHue(r, g, b, maxVal, delta);
    var h := if h0 < 0.0 then h0 + 360.0 else h0;
    Hsv(h, Saturation(maxVal, delta), maxVal)
  }

  /** Pure red is hue 0, fully saturated, full value. */
  lemma PureRedHsv()
    ensures RgbToHsv(Rgb(255, 0, 0)) == Hsv(0.0, 1.0, 1.0)
  {
    assert FloorMod6(0.0) == 0.0;
  }

  function HsvOf(h: Hex): Hsv {
    RgbToHsv(RgbOf(h))
  }

  function HueOf(h: Hex): (hue: real)
    ensures 0.0 <= hue < 360.0
  {
    HsvOf(h).h
  }

  /** The circular hue distance `min(|a - b|, 360 - |a - b|)`, written inline
      four times in the source. */
  function HueDistance(a: real, b: real): (d: real)
    ensures d <= 180.0
    ensures 0.0 <= a < 360.0 && 0.0 <= b < 360.0 ==> 0.0 <= d
    ensures d <= Abs(a - b)
  {
    var diff := Abs(a - b);
    Min(diff, 360.0 - diff)
  }

  lemma HueDistanceSymmetric(a: real, b: real)
    ensures HueDistance(a, b) == HueDistance(b, a)
  {
  }

  lemma HueDistanceSelf(a: real)
    ensures HueDistance(a, a) == 0.0
  {
  }

  lemma HueDistanceWraps()
    ensures HueDistance(10.0, 350.0) == 20.0
  {
  }

  /** A CIE LAB triple. */
  datatype Lab = Lab(l: real, a: real, b: real)

  /** The transcendental part of the colour science, as functions:
      `rgb_to_lab` (sRGB gamma decoding, the D65 matrix, the CIE cube root),
      the CIE76 distance `sqrt(dL^2 + da^2 + db^2)`, `calculate_chroma`
      `sqrt(a^2 + b^2)`, and `math.degrees(math.atan2(b, a))`. */
  datatype ColorScience = ColorScience(
    rgbToLab: Rgb -> Lab,
    deltaE: (Lab, Lab) -> real,
    chroma: Lab -> real,
    atan2Degrees: Lab -> real)
  {
    /** What the model assumes of the distance: a Euclidean norm is
        non-negative, symmetric and zero between equal points. */
    ghost predicate Valid() {
      (forall p, q :: deltaE(p, q) >= 0.0) &&
      (forall p, q :: deltaE(p, q) == deltaE(q, p)) &&
      (forall p :: deltaE(p, p) == 0.0)
    }
  }

  function LabOf(sci: ColorScience, h: Hex): Lab {
    sci.rgbToLab(RgbOf(h))
  }

  /** `calculate_lab_distance` on two hex colours. */
  function LabDistance(sci: ColorScience, h1: Hex, h2: Hex): real {
    sci.deltaE(LabOf(sci, h1), LabOf(sci, h2))
  }

  lemma LabDistanceMetric(sci: ColorScience, h1: Hex, h2: Hex)
    requires sci.Valid()
    ensures LabDistance(sci, h1, h2) >= 0.0
    ensures LabDistance(sci, h1, h2) == LabDistance(sci, h2, h1)
    ensures h1 == h2 ==> LabDistance(sci, h1, h2) == 0.0
  {
  }
}
