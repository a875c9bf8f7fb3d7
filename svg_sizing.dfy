/** The sizing arithmetic of the signature previews in the browser: the style
    table, the size of the SVG drawing derived from the name's length, the
    font size derived from the style and the width, and the placeholder name
    shown when none is typed. */
module SignatureSvg {
  import opened Wrappers

  /** One entry of `signatureStyles`. `fontSize` is a CSS length such as
      `"48px"`. */
  datatype SvgStyle = SvgStyle(fontFamily: string, fontSize: string, color: string, skewAngle: string)

  const Blue := "#0B5FE3"

  /** `signatureStyles`. */
  const SignatureStyles: map<string, SvgStyle> := map[
    "cursive" := SvgStyle("Dancing Script, cursive", "48px", Blue, "-10"),
    "elegant" := SvgStyle("Alex Brush, cursive", "52px", Blue, "-8"),
    "handwritten" := SvgStyle("Homemade Apple, cursive", "42px", Blue, "-5"),
    "artistic" := SvgStyle("Pacifico, cursive", "44px", Blue, "-8"),
    "formal" := SvgStyle("Mr De Haviland, cursive", "50px", Blue, "-12")
  ]

  /** `signatureStyles[style] || signatureStyles.cursive`. */
  function StyleOf(name: string): (s: SvgStyle)
    ensures s in SignatureStyles.Values
  {
    if name in SignatureStyles then SignatureStyles[name] else SignatureStyles["cursive"]
  }

  /** `name.length`: the number of UTF-16 code units, so a character outside
      the Basic Multilingual Plane counts twice. */
  function Utf16Length(s: string): (n: nat)
    ensures |s| <= n <= 2 * |s|
    ensures (forall i :: 0 <= i < |s| ==> s[i] <= '\U{FFFF}') ==> n == |s|
  {
    if s == [] then 0
    else Utf16Length(s[..|s| - 1]) + (if s[|s| - 1] <= '\U{FFFF}' then 1 else 2)
  }

  /** A character of the Basic Multilingual Plane is one code unit, any other
      character a surrogate pair. */
  lemma Utf16Single(c: char)
    ensures Utf16Length([c]) == if c <= '\U{FFFF}' then 1 else 2
  {
    assert [c][..0] == [];
  }

  /** The code units of a concatenation are those of its parts. */
  lemma {:induction false} Utf16Append(a: string, b: string)
    ensures Utf16Length(a + b) == Utf16Length(a) + Utf16Length(b)
    decreases |b|
  {
    if b == [] {
      assert a + b == a;
    } else {
      assert (a + b)[..|a + b| - 1] == a + b[..|b| - 1];
      Utf16Append(a, b[..|b| - 1]);
    }
  }

  /** An emoji after a letter makes three code units, as `length` reports. */
  lemma Utf16Mixed()
    ensures Utf16Length(['a', '\U{1F600}']) == 3
  {
    Utf16Single('a');
    Utf16Single('\U{1F600}');
    Utf16Append(['a'], ['\U{1F600}']);
    assert ['a'] + ['\U{1F600}'] == ['a', '\U{1F600}'];
  }

  predicate IsDigit(c: char)
  {
    '0' <= c <= '9'
  }

  /** The longest prefix of `s` made of decimal digits. */
  function LeadingDigits(s: string): (d: string)
    ensures |d| <= |s| && d == s[..|d|]
    ensures forall i :: 0 <= i < |d| ==> IsDigit(d[i])
    ensures |d| == |s| || !IsDigit(s[|d|])
  {
    if s == [] || !IsDigit(s[0]) then [] else [s[0]] + LeadingDigits(s[1..])
  }

  /** The value of a string of decimal digits. */
  function DigitsValue(d: string): nat
    requires forall i :: 0 <= i < |d| ==> IsDigit(d[i])
  {
    if d == [] then 0
    else
      assert IsDigit(d[|d| - 1]);
      10 * DigitsValue(d[..|d| - 1]) + (d[|d| - 1] as int - '0' as int)
  }

  /** `parseInt(s)` for a string that starts with its digits: the value of
      the leading digits, or `None` where JavaScript yields `NaN`. */
  function ParseInt(s: string): Option<nat>
  {
    var d := LeadingDigits(s);
    if d == [] then None else Some(DigitsValue(d))
  }

  function Min(a: real, b: real): real { if a <= b then a else b }
  function Max(a: real, b: real): real { if a >= b then a else b }

  const MinWidth: real := 200.0
  const MaxWidth: real := 500.0
  const CharWidth: real := 20.0
  const MaxHeight: real := 100.0

  /** `width`: twenty units per code unit, kept within `MinWidth` and
      `MaxWidth`. */
  function Width(name: string): (w: real)
    ensures MinWidth <= w <= MaxWidth
  {
    Min(MaxWidth, Max(MinWidth, Utf16Length(name) as real * CharWidth))
  }

  /** `height`: four tenths of the width, at most `MaxHeight`. */
  function Height(width: real): real
  {
    Min(MaxHeight, width * 0.4)
  }

  /** `fontSize`: the style's nominal size, at most a fifth of the width;
      `None` stands for the `NaN` an unparsable size would give. */
  function FontSize(style: SvgStyle, width: real): Option<real>
  {
    match ParseInt(style.fontSize)
    case None => None
    case Some(px) => Some(Min(px as real, width * 0.2))
  }

  /** The numbers `generateSignatureSVG` writes into the drawing. */
  datatype Layout = Layout(width: real, height: real, centreX: real, centreY: real, fontSize: Option<real>)

  /** `generateSignatureSVG(name, style)`, restricted to its arithmetic: the
      text is anchored at the centre of the view box. */
  function SignatureLayout(name: string, styleName: string): (l: Layout)
    ensures 2.0 * l.centreX == l.width && 2.0 * l.centreY == l.height
  {
    var w := Width(name);
    var h := Height(w);
    Layout(w, h, w / 2.0, h / 2.0, FontSize(StyleOf(styleName), w))
  }

  /** `parseInt` of two digits followed by a unit. */
  lemma ParseTwoDigits(a: char, b: char, unit: string)
    requires IsDigit(a) && IsDigit(b) && unit != [] && !IsDigit(unit[0])
    ensures ParseInt([a, b] + unit) == Some(10 * (a as int - '0' as int) + (b as int - '0' as int))
  {
    var s := [a, b] + unit;
    assert s[1..][1..] == unit;
    assert LeadingDigits(s) == [a, b];
    assert [a, b][..1] == [a] && [a][..0] == [];
    assert DigitsValue([a]) == a as int - '0' as int;
    assert DigitsValue([a, b]) == 10 * DigitsValue([a]) + (b as int - '0' as int);
  }

  /** Every style of the table has a nominal size between 42 and 52 pixels. */
  lemma StyleSizes(styleName: string)
    ensures ParseInt(StyleOf(styleName).fontSize).Some?
    ensures 42 <= ParseInt(StyleOf(styleName).fontSize).value <= 52
  {
    var f := StyleOf(styleName).fontSize;
    assert f in {"48px", "52px", "42px", "44px", "50px"};
    assert "48px" == ['4', '8'] + "px" && "52px" == ['5', '2'] + "px";
    assert "42px" == ['4', '2'] + "px" && "44px" == ['4', '4'] + "px";
    assert "50px" == ['5', '0'] + "px";
    ParseTwoDigits('4', '8', "px");
    ParseTwoDigits('5', '2', "px");
    ParseTwoDigits('4', '2', "px");
    ParseTwoDigits('4', '4', "px");
    ParseTwoDigits('5', '0', "px");
  }

  /** An unknown style name falls back to the `cursive` entry; a known one
      selects its own entry. */
  lemma StyleFallback(name: string)
    ensures name !in {"cursive", "elegant", "handwritten", "artistic", "formal"} ==>
      StyleOf(name) == SvgStyle("Dancing Script, cursive", "48px", Blue, "-10")
    ensures name in {"cursive", "elegant", "handwritten", "artistic", "formal"} ==>
      StyleOf(name) == SignatureStyles[name]
  {
  }

  /** The width grows with the name exactly between ten and twenty-five code
      units and is clamped outside that range. */
  lemma WidthFollowsLength(name: string)
    ensures var n := Utf16Length(name);
      && (10 <= n <= 25 ==> Width(name) == 20.0 * n as real)
      && (n < 10 ==> Width(name) == MinWidth)
      && (n > 25 ==> Width(name) == MaxWidth)
  {
  }

  /** The height lies between 80 and 100 and is four tenths of the width
      until that reaches 100. */
  lemma HeightBand(name: string)
    ensures var w := Width(name);
      && 80.0 <= Height(w) <= MaxHeight
      && (w <= 250.0 ==> Height(w) == 0.4 * w)
      && (w >= 250.0 ==> Height(w) == MaxHeight)
  {
  }

  /** The font size never exceeds the style's nominal size nor a fifth of the
      width; for the styles of the table it is always defined and lies
      between 40 and 52 pixels. */
  lemma FontSizeBounds(name: string, styleName: string)
    ensures var l := SignatureLayout(name, styleName);
      && l.fontSize.Some?
      && l.fontSize.value <= l.width * 0.2
      && l.fontSize.value <= ParseInt(StyleOf(styleName).fontSize).value as real
      && 40.0 <= l.fontSize.value <= 52.0
  {
    StyleSizes(styleName);
  }

  /** `name || 'Nome'`: the placeholder replaces a missing or empty name. */
  function PreviewName(name: Option<string>): (r: string)
    ensures r != ""
    ensures name.Some? && name.value != "" ==> r == name.value
  {
    if name.None? || name.value == "" then "Nome" else name.value
  }

  /** Without a name every preview shows the placeholder, drawn at the
      minimum size. */
  lemma PlaceholderPreview(styleName: string)
    ensures PreviewName(None) == "Nome" && PreviewName(Some("")) == "Nome"
    ensures Width(PreviewName(None)) == MinWidth && Height(Width(PreviewName(None))) == 80.0
  {
    assert Utf16Length("Nome") == 4 by {
      assert "Nome"[..3][..2][..1][..0] == [];
    }
  }
}
