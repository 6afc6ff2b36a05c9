/** The colour utilities of scr/utilities/utils_screen.py: the numbered
    colour schemes, the `#rrggbb` lighten/darken arithmetic used for button
    hover and pressed states, and the rule that decides which labels
    `style_all_labels` restyles. */
module ColorSchemes {
  import opened Wrappers
  import opened PyText

  /** One scheme: four `#RRGGBB` colours. */
  datatype ColorScheme = ColorScheme(background: string, buttonBackground: string, text: string, border: string)

  const Green    := ColorScheme("#848C67", "#5C6249", "#E1DBCA", "#9BA186")
  const Pink     := ColorScheme("#FFB6C1", "#FF69B4", "#FFFFFF", "#FF1493")
  const Purple   := ColorScheme("#DDA0DD", "#9370DB", "#FFFFFF", "#8B008B")
  const Blue     := ColorScheme("#87CEEB", "#4682B4", "#FFFFFF", "#1E90FF")
  const Peach    := ColorScheme("#FFDAB9", "#FF7F50", "#FFFFFF", "#FF6347")
  const Lavender := ColorScheme("#E6E6FA", "#BA55D3", "#FFFFFF", "#9370DB")
  const Mint     := ColorScheme("#98FF98", "#3CB371", "#FFFFFF", "#2E8B57")
  const RoseGold := ColorScheme("#B76E79", "#96505A", "#FFFFFF", "#D4919A")

  /** The table of every scheme, keyed 1 to 8. */
  function GetAllColorSchemes(): (m: map<int, ColorScheme>)
    ensures forall n :: n in m <==> 1 <= n <= 8
    ensures m[8] == RoseGold
  {
    map[1 := Green, 2 := Pink, 3 := Purple, 4 := Blue, 5 := Peach, 6 := Lavender, 7 := Mint, 8 := RoseGold]
  }

  /** The scheme for a colour number: GREEN, PINK, PURPLE, BLUE, PEACH,
      LAVENDER or MINT for 1 to 7, PINK for every other number (8 included). */
  function GetColorScheme(colorNumber: int): (s: ColorScheme)
    ensures colorNumber == 1 ==> s == Green
    ensures colorNumber == 2 ==> s == Pink
    ensures colorNumber == 3 ==> s == Purple
    ensures colorNumber == 4 ==> s == Blue
    ensures colorNumber == 5 ==> s == Peach
    ensures colorNumber == 6 ==> s == Lavender
    ensures colorNumber == 7 ==> s == Mint
    ensures !(1 <= colorNumber <= 7) ==> s == Pink
    ensures s != RoseGold
  {
    match colorNumber
    case 1 => Green
    case 2 => Pink
    case 3 => Purple
    case 4 => Blue
    case 5 => Peach
    case 6 => Lavender
    case 7 => Mint
    case _ => Pink
  }

  /** The full table agrees with the lookup on 1 to 7; its one extra entry,
      ROSE_GOLD under 8, is a scheme no colour number selects. */
  lemma AllColorSchemesAgree(colorNumber: int)
    ensures colorNumber in GetAllColorSchemes() <==> 1 <= colorNumber <= 8
    ensures 1 <= colorNumber <= 7 ==> GetAllColorSchemes()[colorNumber] == GetColorScheme(colorNumber)
    ensures GetColorScheme(colorNumber) in GetAllColorSchemes().Values
    ensures GetColorScheme(colorNumber) != GetAllColorSchemes()[8]
  {
    assert GetAllColorSchemes()[2] == Pink;
  }

  // ---------------------------------------------------------------------
  // Hexadecimal digits

  predicate IsHexDigit(c: char) {
    ('0' <= c <= '9') || ('a' <= c <= 'f') || ('A' <= c <= 'F')
  }

  function HexValue(c: char): (v: nat)
    requires IsHexDigit(c)
    ensures v < 16
  {
    if '0' <= c <= '9' then c as nat - '0' as nat
    else if 'a' <= c <= 'f' then c as nat - 'a' as nat + 10
    else c as nat - 'A' as nat + 10
  }

  /** The digit `format(v, 'x')` writes: lower case. */
  function LowerHexDigit(v: nat): (c: char)
    requires v < 16
    ensures IsHexDigit(c) && HexValue(c) == v && !('A' <= c <= 'F')
  {
    if v < 10 then ('0' as nat + v) as char else ('a' as nat + v - 10) as char
  }

  function ToLower(c: char): char {
    if 'A' <= c <= 'Z' then (c as nat - 'A' as nat + 'a' as nat) as char else c
  }

  lemma LowerHexDigitOfValue(c: char)
    requires IsHexDigit(c)
    ensures LowerHexDigit(HexValue(c)) == ToLower(c)
  {
  }

  // ---------------------------------------------------------------------
  // Parsing `#rrggbb`

  /** Python's `int(t, 16)` on the slices `t[i:i+2]` the colour functions
      take, so at most two characters: the surrounding whitespace `int()`
      skips (`IsIntSpace`) is ignored, a sign may precede one digit, and
      anything else (the empty slice included) raises ValueError, here
      `None`. */
  function ParseHexSlice(t: string): (r: Option<int>)
    requires |t| <= 2
    ensures r.Some? ==> -15 <= r.value <= 255
    ensures t == [] ==> r.None?
  {
    var u := IntStrip(t);
    if u == [] then None
    else if u[0] == '+' || u[0] == '-' then
      if |u| == 2 && IsHexDigit(u[1]) then
        Some(if u[0] == '-' then -(HexValue(u[1]) as int) else HexValue(u[1]) as int)
      else None
    else if |u| == 1 && IsHexDigit(u[0]) then Some(HexValue(u[0]) as int)
    else if |u| == 2 && IsHexDigit(u[0]) && IsHexDigit(u[1]) then Some(16 * HexValue(u[0]) + HexValue(u[1]))
    else None
  }

  lemma HexDigitIsNotSpace(c: char)
    requires IsHexDigit(c)
    ensures !IsIntSpace(c) && c != '+' && c != '-'
  {
  }

  /** `int()` does not skip an ASCII separator: one beside a digit raises. */
  lemma SeparatorIsNotSkipped()
    ensures ParseHexSlice("\U{1C}5") == None && ParseHexSlice("5\U{1F}") == None
  {
    var lead, trail := "\U{1C}5", "5\U{1F}";
    assert !IsIntSpace(lead[0]) && !IsIntSpace(lead[1]) && !IsHexDigit(lead[0]);
    NotAHexPair(lead);
    assert !IsIntSpace(trail[0]) && !IsIntSpace(trail[1]) && !IsHexDigit(trail[1]);
    NotAHexPair(trail);
  }

  /** Two characters `int()` does not skip, not a sign and a digit and not
      two digits, raise. */
  lemma NotAHexPair(t: string)
    requires |t| == 2 && !IsIntSpace(t[0]) && !IsIntSpace(t[1])
    requires t[0] != '+' && t[0] != '-'
    requires !IsHexDigit(t[0]) || !IsHexDigit(t[1])
    ensures ParseHexSlice(t) == None
  {
    assert IntStrip(t) == t;
  }

  /** `int()` does skip a no-break space: one beside a digit is ignored. */
  lemma NoBreakSpaceIsSkipped()
    ensures ParseHexSlice("\U{A0}5") == Some(5)
  {
    var s := "\U{A0}5";
    assert IsIntSpace(s[0]) && !IsIntSpace(s[1]);
    OneSkipped(s);
  }

  lemma OneSkipped(s: string)
    requires |s| == 2 && IsIntSpace(s[0]) && IsHexDigit(s[1])
    ensures ParseHexSlice(s) == Some(HexValue(s[1]) as int)
  {
    HexDigitIsNotSpace(s[1]);
    assert IntStripLeft(s[1..]) == s[1..];
    assert IntStrip(s) == [s[1]];
  }

  /** Two hex digits read as the byte they spell, high digit first. */
  lemma ParseHexSliceOfDigits(t: string, v: int)
    requires |t| == 2 && IsHexDigit(t[0]) && IsHexDigit(t[1])
    requires v == 16 * HexValue(t[0]) + HexValue(t[1])
    ensures ParseHexSlice(t) == Some(v)
  {
    HexDigitIsNotSpace(t[0]);
    HexDigitIsNotSpace(t[1]);
    assert IntStrip(t) == t;
  }

  /** `hex_color.lstrip('#')`: every leading '#' is dropped. */
  function LStripHash(s: string): (r: string)
    ensures |r| <= |s| && r == s[|s| - |r|..]
    ensures r == [] || r[0] != '#'
    ensures forall i :: 0 <= i < |s| - |r| ==> s[i] == '#'
  {
    if s != [] && s[0] == '#' then LStripHash(s[1..]) else s
  }

  datatype Rgb = Rgb(r: int, g: int, b: int)

  /** The three components the colour functions read, or `None` where one
      of the `int(..., 16)` calls raises ValueError. Characters after the
      sixth are ignored. */
  function ParseHexColor(hexColor: string): (r: Option<Rgb>)
    ensures r.Some? ==> -15 <= r.value.r <= 255 && -15 <= r.value.g <= 255 && -15 <= r.value.b <= 255
    ensures |LStripHash(hexColor)| <= 4 ==> r.None?
  {
    var t := LStripHash(hexColor);
    ParseComponents(ParseHexSlice(Slice(t, 0, 2)), ParseHexSlice(Slice(t, 2, 4)), ParseHexSlice(Slice(t, 4, 6)))
  }

  function ParseComponents(r: Option<int>, g: Option<int>, b: Option<int>): Option<Rgb> {
    if r.Some? && g.Some? && b.Some? then Some(Rgb(r.value, g.value, b.value)) else None
  }

  // ---------------------------------------------------------------------
  // Formatting

  /** `format(n, 'x')` for a non-negative number. */
  function HexDigits(n: nat): (s: string)
    ensures s != [] && forall i :: 0 <= i < |s| ==> IsHexDigit(s[i])
    ensures n < 16 <==> |s| == 1
  {
    if n < 16 then [LowerHexDigit(n)] else HexDigits(n / 16) + [LowerHexDigit(n % 16)]
  }

  /** `f"{n:02x}"`: lower-case hex, zero-padded to width two after the sign. */
  function Format02x(n: int): (s: string)
    ensures n >= 0 ==> |s| >= 2 && forall i :: 0 <= i < |s| ==> IsHexDigit(s[i])
    ensures n < 0 ==> s != [] && s[0] == '-'
  {
    if n < 0 then "-" + HexDigits(-n)
    else
      var h := HexDigits(n);
      if |h| < 2 then "0" + h else h
  }

  /** A byte is written as exactly two lower-case digits, high digit first. */
  lemma Format02xOfByte(n: int)
    requires 0 <= n <= 255
    ensures Format02x(n) == [LowerHexDigit(n / 16), LowerHexDigit(n % 16)]
  {
    if n >= 16 {
      assert HexDigits(n / 16) == [LowerHexDigit(n / 16)];
    }
  }

  function FormatHexColor(c: Rgb): (s: string)
    ensures s != [] && s[0] == '#'
    ensures c.r >= 0 && c.g >= 0 && c.b >= 0 ==> |s| >= 7 && forall i :: 1 <= i < |s| ==> IsHexDigit(s[i])
  {
    "#" + Format02x(c.r) + Format02x(c.g) + Format02x(c.b)
  }

  /** `#` followed by six lower-case hex digits. */
  predicate IsLowerHexColor(s: string) {
    |s| == 7 && s[0] == '#' && forall i :: 1 <= i < 7 ==> IsHexDigit(s[i]) && !('A' <= s[i] <= 'F')
  }

  /** `#` followed by six hex digits of either case. */
  predicate IsHexColor(s: string) {
    |s| == 7 && s[0] == '#' && forall i :: 1 <= i < 7 ==> IsHexDigit(s[i])
  }

  predicate IsByteRgb(c: Rgb) {
    0 <= c.r <= 255 && 0 <= c.g <= 255 && 0 <= c.b <= 255
  }

  lemma FormatByteRgb(c: Rgb)
    requires IsByteRgb(c)
    ensures IsLowerHexColor(FormatHexColor(c))
    ensures var s := FormatHexColor(c);
            s[1..3] == Format02x(c.r) && s[3..5] == Format02x(c.g) && s[5..7] == Format02x(c.b)
  {
    Format02xOfByte(c.r);
    Format02xOfByte(c.g);
    Format02xOfByte(c.b);
  }

  lemma ParseTwoDigits(t: string, n: int)
    requires 0 <= n <= 255 && t == [LowerHexDigit(n / 16), LowerHexDigit(n % 16)]
    ensures ParseHexSlice(t) == Some(n)
  {
    ParseHexSliceOfDigits(t, n);
  }

  /** A string that starts with exactly one '#' loses just that one. */
  lemma LStripOneHash(s: string)
    requires |s| >= 2 && s[0] == '#' && s[1] != '#'
    ensures LStripHash(s) == s[1..]
  {
    assert s[1..][0] == s[1];
  }

  /** Formatting a colour and reading it back gives the same components. */
  lemma ParseFormatRoundTrip(c: Rgb)
    requires IsByteRgb(c)
    ensures ParseHexColor(FormatHexColor(c)) == Some(c)
  {
    var s := FormatHexColor(c);
    FormatByteRgb(c);
    Format02xOfByte(c.r);
    Format02xOfByte(c.g);
    Format02xOfByte(c.b);
    var t := LStripHash(s);
    LStripOneHash(s);
    assert Slice(t, 0, 2) == s[1..3];
    assert Slice(t, 2, 4) == s[3..5];
    assert Slice(t, 4, 6) == s[5..7];
    ParseTwoDigits(s[1..3], c.r);
    ParseTwoDigits(s[3..5], c.g);
    ParseTwoDigits(s[5..7], c.b);
  }

  /** The byte spelled by the two hex digits at `s[k]` and `s[k + 1]`. */
  function ByteAt(s: string, k: nat): (v: int)
    requires k + 1 < |s| && IsHexDigit(s[k]) && IsHexDigit(s[k + 1])
    ensures 0 <= v <= 255
  {
    16 * HexValue(s[k]) + HexValue(s[k + 1])
  }

  lemma ParseHexColorOfHex(s: string)
    requires HexColorChars(s)
    ensures ParseHexColor(s) == Some(Rgb(ByteAt(s, 1), ByteAt(s, 3), ByteAt(s, 5)))
  {
    PairAt(s, 1);
    PairAt(s, 3);
    PairAt(s, 5);
    ComponentsParsed(s, ByteAt(s, 1), ByteAt(s, 3), ByteAt(s, 5));
  }

  /** `ParseHexColor` succeeds exactly with the three slices' values. */
  lemma ComponentsParsed(s: string, r: int, g: int, b: int)
    requires ParseHexSlice(Slice(LStripHash(s), 0, 2)) == Some(r)
    requires ParseHexSlice(Slice(LStripHash(s), 2, 4)) == Some(g)
    requires ParseHexSlice(Slice(LStripHash(s), 4, 6)) == Some(b)
    ensures ParseHexColor(s) == Some(Rgb(r, g, b))
  {
  }

  /** The slice `t[k-1:k+1]` of the stripped colour `t` is the pair at `s[k]`. */
  lemma PairAt(s: string, k: nat)
    requires |s| == 7 && s[0] == '#' && s[1] != '#' && 1 <= k <= 5
    requires IsHexDigit(s[k]) && IsHexDigit(s[k + 1])
    ensures ParseHexSlice(Slice(LStripHash(s), k - 1, k + 1)) == Some(ByteAt(s, k))
  {
    SliceOfStripped(s, k);
    ParseHexSliceOfDigits([s[k], s[k + 1]], ByteAt(s, k));
  }

  lemma SliceOfStripped(s: string, k: nat)
    requires |s| == 7 && s[0] == '#' && s[1] != '#' && 1 <= k <= 5
    ensures Slice(LStripHash(s), k - 1, k + 1) == [s[k], s[k + 1]]
  {
    LStripOneHash(s);
  }

  lemma FormatByteAt(s: string, k: nat)
    requires k + 1 < |s| && IsHexDigit(s[k]) && IsHexDigit(s[k + 1])
    ensures Format02x(ByteAt(s, k)) == [ToLower(s[k]), ToLower(s[k + 1])]
  {
    var v := ByteAt(s, k);
    Format02xOfByte(v);
    assert v / 16 == HexValue(s[k]) && v % 16 == HexValue(s[k + 1]);
    LowerHexDigitOfValue(s[k]);
    LowerHexDigitOfValue(s[k + 1]);
  }

  /** Reading a `#rrggbb` colour and formatting it again gives the colour in
      lower case. */
  lemma FormatParseRoundTrip(s: string)
    requires IsHexColor(s)
    ensures ParseHexColor(s).Some? && IsByteRgb(ParseHexColor(s).value)
    ensures FormatHexColor(ParseHexColor(s).value) == Lower(s)
  {
    assert HexColorChars(s);
    ParseHexColorOfHex(s);
    FormatBytesAt(s);
  }

  /** The bytes spelled by a `#RRGGBB` colour, formatted, give the colour
      in lower case. */
  lemma FormatBytesAt(s: string)
    requires HexColorChars(s)
    ensures FormatHexColor(Rgb(ByteAt(s, 1), ByteAt(s, 3), ByteAt(s, 5))) == Lower(s)
  {
    FormatByteAt(s, 1);
    FormatByteAt(s, 3);
    FormatByteAt(s, 5);
    LowerOfHexColor(s);
  }

  lemma LowerOfHexColor(s: string)
    requires |s| == 7 && s[0] == '#'
    ensures Lower(s) == "#" + [ToLower(s[1]), ToLower(s[2])] + [ToLower(s[3]), ToLower(s[4])] + [ToLower(s[5]), ToLower(s[6])]
  {
  }

  function Lower(s: string): (r: string)
    ensures |r| == |s| && forall i :: 0 <= i < |s| ==> r[i] == ToLower(s[i])
  {
    seq(|s|, i requires 0 <= i < |s| => ToLower(s[i]))
  }

  // ---------------------------------------------------------------------
  // Lighten and darken

  /** Python's `int(x)` on the quotient `a / b`: truncation toward zero,
      so the remainder left over has the sign of `a`. */
  function TruncDiv(a: int, b: int): (q: int)
    requires b > 0
    ensures a >= 0 ==> 0 <= a - q * b < b
    ensures a < 0 ==> -b < a - q * b <= 0
  {
    if a >= 0 then a / b else -((-a) / b)
  }

  /** `min(255, int(c + (255 - c) * percent / 100))`. */
  function LightenComponent(c: int, percent: int): (v: int)
    ensures v <= 255
  {
    var v := TruncDiv(100 * c + (255 - c) * percent, 100);
    if v < 255 then v else 255
  }

  /** `max(0, int(c * (1 - percent / 100)))`, computed on exact rationals. */
  function DarkenComponent(c: int, percent: int): (v: int)
    ensures v >= 0
  {
    var v := TruncDiv(c * (100 - percent), 100);
    if v > 0 then v else 0
  }

  lemma LightenComponentBounds(c: int, percent: int)
    requires 0 <= percent <= 100 && c <= 255
    ensures c <= LightenComponent(c, percent) <= 255
    ensures percent == 0 ==> LightenComponent(c, percent) == c
    ensures percent == 100 ==> LightenComponent(c, percent) == 255
  {
    var gain := (255 - c) * percent;
    MulNonNegative(255 - c, percent);
    TruncDivAtLeast(100 * c + gain, c);
    if percent == 0 {
      assert gain == 0;
    } else if percent == 100 {
      assert gain == 25500 - 100 * c;
    }
  }

  lemma MulNonNegative(x: int, y: int)
    requires x >= 0 && y >= 0
    ensures x * y >= 0
  {
  }

  /** A numerator of at least `100 * c` truncates to at least `c`, and
      exactly `100 * c` to `c`. */
  lemma TruncDivAtLeast(a: int, c: int)
    requires a >= 100 * c
    ensures TruncDiv(a, 100) >= c
    ensures a == 100 * c ==> TruncDiv(a, 100) == c
  {
    if a < 0 {
      assert -a <= -100 * c;
      assert (-a) / 100 <= -c;
    }
  }

  lemma DarkenComponentBounds(c: int, percent: int)
    requires 0 <= percent <= 100
    ensures 0 <= DarkenComponent(c, percent)
    ensures c >= 0 ==> DarkenComponent(c, percent) <= c
    ensures c >= 0 && percent == 0 ==> DarkenComponent(c, percent) == c
    ensures percent == 100 ==> DarkenComponent(c, percent) == 0
  {
    if c >= 0 {
      assert c * (100 - percent) <= c * 100;
    }
  }

  function LightenRgb(c: Rgb, percent: int): Rgb {
    Rgb(LightenComponent(c.r, percent), LightenComponent(c.g, percent), LightenComponent(c.b, percent))
  }

  function DarkenRgb(c: Rgb, percent: int): Rgb {
    Rgb(DarkenComponent(c.r, percent), DarkenComponent(c.g, percent), DarkenComponent(c.b, percent))
  }

  /** `lighten_color(hex_color, percent)`; ValueError when a component does
      not parse. */
  function LightenColor(hexColor: string, percent: int): (r: Outcome<string>)
    ensures ParseHexColor(hexColor).None? <==> r == Raised(ValueError)
    ensures r.Returned? ==> r.value != [] && r.value[0] == '#'
  {
    match ParseHexColor(hexColor)
    case None => Raised(ValueError)
    case Some(c) => Returned(FormatHexColor(LightenRgb(c, percent)))
  }

  /** `darken_color(hex_color, percent)`; ValueError when a component does
      not parse. */
  function DarkenColor(hexColor: string, percent: int): (r: Outcome<string>)
    ensures ParseHexColor(hexColor).None? <==> r == Raised(ValueError)
    ensures r.Returned? ==> r.value != [] && r.value[0] == '#'
  {
    match ParseHexColor(hexColor)
    case None => Raised(ValueError)
    case Some(c) => Returned(FormatHexColor(DarkenRgb(c, percent)))
  }

  /** A colour whose digits are padded with ASCII separators does not
      parse: both functions raise ValueError. */
  lemma SeparatedColorRaises(percent: int)
    ensures LightenColor("#\U{1C}5\U{1C}5\U{1C}5", percent) == Raised(ValueError)
    ensures DarkenColor("#\U{1C}5\U{1C}5\U{1C}5", percent) == Raised(ValueError)
  {
    var s := "#\U{1C}5\U{1C}5\U{1C}5";
    LStripOneHash(s);
    assert Slice(LStripHash(s), 0, 2) == "\U{1C}5";
    SeparatorIsNotSkipped();
  }

  lemma WhiteAndBlack()
    ensures FormatHexColor(Rgb(255, 255, 255)) == "#ffffff"
    ensures FormatHexColor(Rgb(0, 0, 0)) == "#000000"
  {
    Format02xOfByte(255);
    Format02xOfByte(0);
  }

  predicate RgbBetween(lo: Rgb, x: Rgb, hi: Rgb) {
    lo.r <= x.r <= hi.r && lo.g <= x.g <= hi.g && lo.b <= x.b <= hi.b
  }

  /** For a `#rrggbb` input and a percentage in [0, 100], lightening yields
      a lower-case `#rrggbb` whose every component lies between the input's
      and 255: the input itself (lower-cased) at 0%, white at 100%. */
  lemma LightenColorSpec(hexColor: string, percent: int)
    requires IsHexColor(hexColor) && 0 <= percent <= 100
    ensures ParseHexColor(hexColor).Some?
    ensures var c := ParseHexColor(hexColor).value;
            var r := LightenColor(hexColor, percent);
            && r.Returned? && IsLowerHexColor(r.value)
            && ParseHexColor(r.value).Some?
            && RgbBetween(c, ParseHexColor(r.value).value, Rgb(255, 255, 255))
    ensures percent == 0 ==> LightenColor(hexColor, percent) == Returned(Lower(hexColor))
    ensures percent == 100 ==> LightenColor(hexColor, percent) == Returned("#ffffff")
  {
    FormatParseRoundTrip(hexColor);
    var c := ParseHexColor(hexColor).value;
    LightenComponentBounds(c.r, percent);
    LightenComponentBounds(c.g, percent);
    LightenComponentBounds(c.b, percent);
    var l := LightenRgb(c, percent);
    FormatByteRgb(l);
    ParseFormatRoundTrip(l);
    if percent == 0 {
      assert l == c;
    }
    if percent == 100 {
      assert l == Rgb(255, 255, 255);
      WhiteAndBlack();
    }
  }

  /** For a `#rrggbb` input and a percentage in [0, 100], darkening yields
      a lower-case `#rrggbb` whose every component lies between 0 and the
      input's: the input itself (lower-cased) at 0%, black at 100%. */
  lemma DarkenColorSpec(hexColor: string, percent: int)
    requires IsHexColor(hexColor) && 0 <= percent <= 100
    ensures ParseHexColor(hexColor).Some?
    ensures var c := ParseHexColor(hexColor).value;
            var r := DarkenColor(hexColor, percent);
            && r.Returned? && IsLowerHexColor(r.value)
            && ParseHexColor(r.value).Some?
            && RgbBetween(Rgb(0, 0, 0), ParseHexColor(r.value).value, c)
    ensures percent == 0 ==> DarkenColor(hexColor, percent) == Returned(Lower(hexColor))
    ensures percent == 100 ==> DarkenColor(hexColor, percent) == Returned("#000000")
  {
    FormatParseRoundTrip(hexColor);
    var c := ParseHexColor(hexColor).value;
    DarkenComponentBounds(c.r, percent);
    DarkenComponentBounds(c.g, percent);
    DarkenComponentBounds(c.b, percent);
    var d := DarkenRgb(c, percent);
    FormatByteRgb(d);
    ParseFormatRoundTrip(d);
    if percent == 0 {
      assert d == c;
    }
    if percent == 100 {
      assert d == Rgb(0, 0, 0);
      WhiteAndBlack();
    }
  }

  /** `IsHexColor` spelled out position by position. */
  predicate HexColorChars(s: string) {
    && |s| == 7 && s[0] == '#'
    && IsHexDigit(s[1]) && IsHexDigit(s[2]) && IsHexDigit(s[3])
    && IsHexDigit(s[4]) && IsHexDigit(s[5]) && IsHexDigit(s[6])
  }

  lemma HexColorByChars(s: string)
    requires HexColorChars(s)
    ensures IsHexColor(s)
  {
  }

  predicate SchemeIsHex(s: ColorScheme) {
    IsHexColor(s.background) && IsHexColor(s.buttonBackground) && IsHexColor(s.text) && IsHexColor(s.border)
  }

  lemma SchemeIsHexByChars(s: ColorScheme)
    requires HexColorChars(s.background) && HexColorChars(s.buttonBackground)
    requires HexColorChars(s.text) && HexColorChars(s.border)
    ensures SchemeIsHex(s)
  {
    HexColorByChars(s.background);
    HexColorByChars(s.buttonBackground);
    HexColorByChars(s.text);
    HexColorByChars(s.border);
  }

  lemma FirstSchemesAreHex()
    ensures SchemeIsHex(Green) && SchemeIsHex(Pink) && SchemeIsHex(Purple) && SchemeIsHex(Blue)
  {
    SchemeIsHexByChars(Green);
    SchemeIsHexByChars(Pink);
    SchemeIsHexByChars(Purple);
    SchemeIsHexByChars(Blue);
  }

  lemma LastSchemesAreHex()
    ensures SchemeIsHex(Peach) && SchemeIsHex(Lavender) && SchemeIsHex(Mint) && SchemeIsHex(RoseGold)
  {
    SchemeIsHexByChars(Peach);
    SchemeIsHexByChars(Lavender);
    SchemeIsHexByChars(Mint);
    SchemeIsHexByChars(RoseGold);
  }

  /** Every colour of every scheme is a `#RRGGBB` string: the one a colour
      number selects, and ROSE_GOLD, the one no number selects. */
  lemma SchemeColorsAreHex(colorNumber: int)
    ensures SchemeIsHex(GetColorScheme(colorNumber))
    ensures SchemeIsHex(RoseGold)
  {
    FirstSchemesAreHex();
    LastSchemesAreHex();
  }

  /** So the hover and pressed shades `style_button` derives from the
      selected scheme with 15% are lower-case `#rrggbb` colours and never
      raise, whatever the colour number. */
  lemma ButtonShadesAreWellFormed(colorNumber: int)
    ensures var s := GetColorScheme(colorNumber);
            && LightenColor(s.buttonBackground, 15).Returned? && IsLowerHexColor(LightenColor(s.buttonBackground, 15).value)
            && LightenColor(s.border, 15).Returned? && IsLowerHexColor(LightenColor(s.border, 15).value)
            && DarkenColor(s.buttonBackground, 15).Returned? && IsLowerHexColor(DarkenColor(s.buttonBackground, 15).value)
            && DarkenColor(s.border, 15).Returned? && IsLowerHexColor(DarkenColor(s.border, 15).value)
  {
    var s := GetColorScheme(colorNumber);
    SchemeColorsAreHex(colorNumber);
    LightenColorSpec(s.buttonBackground, 15);
    LightenColorSpec(s.border, 15);
    DarkenColorSpec(s.buttonBackground, 15);
    DarkenColorSpec(s.border, 15);
  }

  // ---------------------------------------------------------------------
  // Labels

  /** The object names `style_all_labels` leaves untouched: the background
      and the image and countdown labels. */
  const UnstyledLabelNames: set<string> :=
    {"background", "label_image_1", "label_image_2", "label_image_3", "label_countdown", "label_countdown_2"}

  predicate IsStyledLabel(objectName: string) {
    objectName !in UnstyledLabelNames
  }

  /** A QLabel, reduced to its object name and the text colour its
      stylesheet sets (`None` while unstyled). */
  class Label {
    const objectName: string
    var textColor: Option<string>

    constructor (objectName: string)
      ensures this.objectName == objectName && textColor.None?
    {
      this.objectName := objectName;
      textColor := None;
    }
  }

  /** `style_all_labels(widget, color_number)` over the widget's labels:
      each label whose name is not excluded takes the scheme's text colour,
      the others keep theirs. */
  method StyleAllLabels(labels: seq<Label>, colorNumber: int)
    modifies set l | l in labels
    ensures forall l :: l in labels && IsStyledLabel(l.objectName) ==>
              l.textColor == Some(GetColorScheme(colorNumber).text)
    ensures forall l :: l in labels && !IsStyledLabel(l.objectName) ==> l.textColor == old(l.textColor)
  {
    var color := GetColorScheme(colorNumber).text;
    for i := 0 to |labels|
      invariant forall l :: l in labels[..i] && IsStyledLabel(l.objectName) ==> l.textColor == Some(color)
      invariant forall l :: l in labels && !IsStyledLabel(l.objectName) ==> l.textColor == old(l.textColor)
      invariant forall l :: l in labels && l !in labels[..i] ==> l.textColor == old(l.textColor)
    {
      var widget := labels[i];
      if IsStyledLabel(widget.objectName) {
        widget.textColor := Some(color);
      }
    }
    assert labels[..|labels|] == labels;
  }
}
