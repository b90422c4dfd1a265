/** `hex_to_rgb` of the flat application: strip leading `#` characters and
    read three two-character slices with Python's `int(slice, 16)`. */
module Colour {
  import opened Results
  import opened Text

  datatype Rgb = Rgb(red: int, green: int, blue: int)

  /** `int(text, 16)` raised `ValueError` on `text`. */
  datatype HexError = InvalidLiteral(text: string)

  predicate IsHexDigit(c: char) {
    ('0' <= c <= '9') || ('a' <= c <= 'f') || ('A' <= c <= 'F')
  }

  function DigitValue(c: char): (v: nat)
    requires IsHexDigit(c)
    ensures v < 16
  {
    if '0' <= c <= '9' then c as int - '0' as int
    else if 'a' <= c <= 'f' then c as int - 'a' as int + 10
    else c as int - 'A' as int + 10
  }

  function Pow16(n: nat): (p: nat)
    ensures p >= 1
  {
    if n == 0 then 1 else 16 * Pow16(n - 1)
  }

  predicate AllHex(ds: string) {
    forall k :: 0 <= k < |ds| ==> IsHexDigit(ds[k])
  }

  /** The value of a string of hex digits, most significant first; it fits
      in as many hex places as there are digits. */
  function HexValue(ds: string): (v: nat)
    requires AllHex(ds)
    ensures v < Pow16(|ds|)
  {
    if ds == [] then 0 else HexValue(ds[..|ds| - 1]) * 16 + DigitValue(ds[|ds| - 1])
  }

  /** The whitespace `int()` skips around a numeral in an ASCII string: tab,
      line feed, vertical tab, form feed, carriage return and space. Unlike
      `str.isspace`, the information separators 0x1C-0x1F are not skipped. */
  predicate IntSpace(c: char) {
    (9 <= c as int <= 13) || c == ' '
  }

  /** Python's `int(s, 16)` on the slices `hex_to_rgb` passes it (at most
      two characters): surrounding whitespace is ignored, then one optional
      sign, then at least one hex digit. The `0x` prefix and `_` separators
      that `int` also accepts need three or more characters, so cannot occur. */
  function ParseHex(s: string): (r: Result<int, HexError>)
    ensures r.Ok? && |s| <= 2 ==> -15 <= r.value <= 255
    ensures r.Ok? && r.value < 0 ==> '-' in s
  {
    var t := Strip(s, IntSpace);
    var negative := t != [] && t[0] == '-';
    var digits := if t != [] && (t[0] == '-' || t[0] == '+') then t[1..] else t;
    if digits == [] || !AllHex(digits) then
      Err(InvalidLiteral(s))
    else
      StripWithin(s, IntSpace);
      HexBound(digits);
      var v: int := HexValue(digits);
      if negative then Ok(-v) else Ok(v)
  }

  /** One hex digit is below 16, two are below 256. */
  lemma {:induction false} HexBound(ds: string)
    requires AllHex(ds)
    ensures |ds| <= 1 ==> HexValue(ds) < 16
    ensures |ds| <= 2 ==> HexValue(ds) < 256
  {
    assert Pow16(0) == 1 && Pow16(1) == 16 && Pow16(2) == 256;
  }

  /** Python's `s[i:j]` for 0 <= i <= j: indexes past the end are clamped. */
  function Slice(s: string, i: nat, j: nat): (r: string)
    requires i <= j
    ensures |r| <= j - i
    ensures j <= |s| ==> r == s[i..j]
    ensures i <= |s| <= j ==> r == s[i..]
    ensures |s| <= i ==> r == []
  {
    var a := if i < |s| then i else |s|;
    var b := if j < |s| then j else |s|;
    s[a..b]
  }

  /** `hex_to_rgb`: components in slice order; the first slice `int` rejects
      is the error. */
  function HexToRgb(code: string): (r: Result<Rgb, HexError>)
    ensures r.Ok? ==> -15 <= r.value.red <= 255 && -15 <= r.value.green <= 255 && -15 <= r.value.blue <= 255
  {
    var h := LStrip(code, '#');
    var red :- ParseHex(Slice(h, 0, 2));
    var green :- ParseHex(Slice(h, 2, 4));
    var blue :- ParseHex(Slice(h, 4, 6));
    Ok(Rgb(red, green, blue))
  }

  // ---------------------------------------------------------------------
  // The colour format `f"#{r:02x}{g:02x}{b:02x}"` and its inverse

  predicate InRange(c: Rgb) {
    0 <= c.red < 256 && 0 <= c.green < 256 && 0 <= c.blue < 256
  }

  function DigitChar(n: nat): (c: char)
    requires n < 16
    ensures IsHexDigit(c) && DigitValue(c) == n && !IntSpace(c) && c != '#' && c != '-' && c != '+'
  {
    if n < 10 then ('0' as int + n) as char else ('a' as int + n - 10) as char
  }

  /** `f"{n:02x}"` for 0 <= n < 256. */
  function Pair(n: nat): (p: string)
    requires n < 256
    ensures |p| == 2
  {
    [DigitChar(n / 16), DigitChar(n % 16)]
  }

  function Format(c: Rgb): (s: string)
    requires InRange(c)
    ensures |s| == 7
  {
    "#" + Pair(c.red) + Pair(c.green) + Pair(c.blue)
  }

  /** Two hex digits parse to their value. */
  lemma {:induction false} ParseTwoDigits(p: string)
    requires |p| == 2 && AllHex(p)
    ensures ParseHex(p) == Ok(HexValue(p))
  {
    assert !IntSpace(p[0]) && !IntSpace(p[1]);
    StripUnchanged(p, IntSpace);
  }

  lemma {:induction false} ParsePair(n: nat)
    requires n < 256
    ensures ParseHex(Pair(n)) == Ok(n)
  {
    var p := Pair(n);
    ParseTwoDigits(p);
    assert p[..1] == [p[0]];
    assert HexValue(p) == DigitValue(p[0]) * 16 + DigitValue(p[1]);
  }

  /** A code whose first six characters after the leading `#`s are hex
      digits reads as the three two-digit values, each in 0..255. */
  lemma {:induction false} HexToRgbDigits(code: string)
    requires var h := LStrip(code, '#');
      |h| >= 6 && AllHex(h[0..2]) && AllHex(h[2..4]) && AllHex(h[4..6])
    ensures
      var h := LStrip(code, '#');
      && HexToRgb(code) == Ok(Rgb(HexValue(h[0..2]), HexValue(h[2..4]), HexValue(h[4..6])))
      && InRange(HexToRgb(code).value)
  {
    var h := LStrip(code, '#');
    var r, g, b := h[0..2], h[2..4], h[4..6];
    assert Slice(h, 0, 2) == r && Slice(h, 2, 4) == g && Slice(h, 4, 6) == b;
    ParseTwoDigits(r);
    ParseTwoDigits(g);
    ParseTwoDigits(b);
    HexBound(r);
    HexBound(g);
    HexBound(b);
  }

  /** Reading back a formatted colour gives the colour. */
  lemma {:induction false} FormatRoundTrip(c: Rgb)
    requires InRange(c)
    ensures HexToRgb(Format(c)) == Ok(c)
  {
    var body := Pair(c.red) + Pair(c.green) + Pair(c.blue);
    assert Format(c) == "#" + body;
    assert Format(c)[1..] == body;
    assert LStrip(body, '#') == body;
    assert LStrip(Format(c), '#') == body;
    assert Slice(body, 0, 2) == Pair(c.red);
    assert Slice(body, 2, 4) == Pair(c.green);
    assert Slice(body, 4, 6) == Pair(c.blue);
    ParsePair(c.red);
    ParsePair(c.green);
    ParsePair(c.blue);
  }

  // ---------------------------------------------------------------------
  // The gradient's end colour

  /** The end colour the flat application passes to its gradient. */
  const GradientEndAsWritten: string := "white"

  /** "white" is not a hex colour: `int("wh", 16)` raises, so the gradient
      (drawn while the window is built) fails before the application starts. */
  lemma {:induction false} GradientEndRejected()
    ensures HexToRgb(GradientEndAsWritten) == Err(InvalidLiteral("wh"))
  {
    var h := GradientEndAsWritten;
    LStripUnchanged(h, '#');
    var first := Slice(h, 0, 2);
    assert first == "wh";
    FirstSliceRejected(first);
  }

  /** `int("wh", 16)` raises. */
  lemma {:induction false} FirstSliceRejected(w: string)
    requires w == "wh"
    ensures ParseHex(w) == Err(InvalidLiteral(w))
  {
    StripUnchanged(w, IntSpace);
    assert !IsHexDigit(w[0]);
  }

  /** An information separator is not whitespace to `int()`: the slice
      `"\x1cf"` is refused although `str.isspace` holds of its first character. */
  lemma {:induction false} SeparatorNotSkipped(w: string)
    requires w == [28 as char, 'f']
    ensures IsSpace(w[0])
    ensures ParseHex(w) == Err(InvalidLiteral(w))
  {
    assert !IntSpace(w[0]) && !IntSpace(w[1]);
    StripUnchanged(w, IntSpace);
    assert !IsHexDigit(w[0]);
  }

  /** The same colour written the way `hex_to_rgb` reads it. */
  const GradientEnd: string := "#ffffff"

  lemma {:induction false} GradientEndIsWhite()
    ensures HexToRgb(GradientEnd) == Ok(Rgb(255, 255, 255))
  {
    assert Format(Rgb(255, 255, 255)) == GradientEnd;
    FormatRoundTrip(Rgb(255, 255, 255));
  }
}
