/** Colour helpers of `TAlex.WPF.Media.ColorUtilities`: hex codes, parsing colours by hex code or
    by known name, packing colours into 32-bit pixels, and the table of known colour names. */
module ColorUtilities {
  import opened Common
  import opened Int32Bits
  import opened Text

  /** `System.Windows.Media.Color` built from byte channels. */
  datatype Color = Color(a: Byte, r: Byte, g: Byte, b: Byte)

  /** `Colors.Transparent`: white with zero alpha. */
  const Transparent: Color := Color(0, 255, 255, 255)

  /** The exceptions `ParseColor` throws. */
  datatype ParseError = NullReference | Format

  /** A colour's four channels as one unsigned 32-bit number, alpha in the top byte. */
  function Argb(c: Color): (v: nat)
    ensures v < TwoTo32
  {
    c.a * 0x100_0000 + c.r * 0x1_0000 + c.g * 0x100 + c.b
  }

  // ---------------------------------------------------------------------------------------
  // Hexadecimal digits

  function Pow16(n: nat): (p: nat)
    ensures p >= 1
  {
    if n == 0 then 1 else 16 * Pow16(n - 1)
  }

  /** The value of one hexadecimal digit, in either case. */
  function HexDigitValue(c: char): (d: Option<nat>)
    ensures d.Some? ==> d.value < 16
    ensures d.Some? <==> ('0' <= c <= '9' || 'a' <= c <= 'f' || 'A' <= c <= 'F')
  {
    if '0' <= c <= '9' then Some(c as int - '0' as int)
    else if 'a' <= c <= 'f' then Some(c as int - 'a' as int + 10)
    else if 'A' <= c <= 'F' then Some(c as int - 'A' as int + 10)
    else None
  }

  /** The first `n` characters of `s` read as hexadecimal digits (most significant first);
      `None` when one of them is not a hexadecimal digit. No digits read as 0. */
  function HexValueOfPrefix(s: string, n: nat): (v: Option<nat>)
    requires n <= |s|
    ensures v.Some? ==> v.value < Pow16(n)
  {
    if n == 0 then Some(0)
    else
      var front := HexValueOfPrefix(s, n - 1);
      var last := HexDigitValue(s[n - 1]);
      if front.None? || last.None? then None
      else Some(front.value * 16 + last.value)
  }

  /** A string of hexadecimal digits read as a number. */
  function HexValue(s: string): (v: Option<nat>)
    ensures v.Some? ==> v.value < Pow16(|s|)
  {
    HexValueOfPrefix(s, |s|)
  }

  /** Two strings that agree on their first `n` characters read the same there. */
  lemma {:induction false} HexValueOfPrefixAgree(s: string, t: string, n: nat)
    requires n <= |s| && n <= |t|
    requires forall i :: 0 <= i < n ==> s[i] == t[i]
    ensures HexValueOfPrefix(s, n) == HexValueOfPrefix(t, n)
  {
    if n > 0 {
      HexValueOfPrefixAgree(s, t, n - 1);
    }
  }

  /** Appending a digit: the value so far moves up one hexadecimal place. */
  lemma HexValueSnoc(s: string, c: char)
    ensures HexValue(s + [c]) ==
      if HexValue(s).Some? && HexDigitValue(c).Some?
      then Some(HexValue(s).value * 16 + HexDigitValue(c).value)
      else None
  {
    HexValueOfPrefixAgree(s, s + [c], |s|);
  }

  /** Two digits read as the first times 16 plus the second. */
  lemma HexValueTwo(y: string)
    requires |y| == 2
    ensures HexValue(y) ==
      if HexDigitValue(y[0]).Some? && HexDigitValue(y[1]).Some?
      then Some(HexDigitValue(y[0]).value * 16 + HexDigitValue(y[1]).value)
      else None
  {
    var d0 := HexDigitValue(y[0]);
    assert HexValueOfPrefix(y, 1) == if d0.Some? then Some(d0.value) else None;
  }

  /** Appending two digits: the value so far moves up two hexadecimal places. */
  lemma HexValueAppend2(x: string, y: string)
    requires |y| == 2
    ensures HexValue(x + y) ==
      if HexValue(x).Some? && HexValue(y).Some?
      then Some(HexValue(x).value * 0x100 + HexValue(y).value)
      else None
  {
    var t := x + y;
    HexValueOfPrefixAgree(x, t, |x|);
    HexValueTwo(y);
    assert t[|x|] == y[0] && t[|x| + 1] == y[1];
    var d0, d1 := HexDigitValue(y[0]), HexDigitValue(y[1]);
    var front := HexValueOfPrefix(t, |x| + 1);
    assert front == if HexValue(x).Some? && d0.Some? then Some(HexValue(x).value * 16 + d0.value) else None;
    assert HexValue(t) == if front.Some? && d1.Some? then Some(front.value * 16 + d1.value) else None;
  }

  /** The upper-case digit `X2` formatting writes for `d`. */
  function HexDigitChar(d: nat): (c: char)
    requires d < 16
    ensures HexDigitValue(c) == Some(d)
    ensures '0' <= c <= '9' || 'A' <= c <= 'F'
  {
    if d < 10 then ('0' as int + d) as char else ('A' as int + d - 10) as char
  }

  /** `{0:X2}`: a byte as two upper-case hexadecimal digits. */
  function Hex2(v: Byte): (h: string)
    ensures |h| == 2 && HexValue(h) == Some(v)
    ensures forall i :: 0 <= i < 2 ==> ('0' <= h[i] <= '9' || 'A' <= h[i] <= 'F')
  {
    var h := [HexDigitChar(v / 16), HexDigitChar(v % 16)];
    HexValueSnoc([], h[0]);
    HexValueSnoc([h[0]], h[1]);
    assert [] + [h[0]] == [h[0]] && [h[0]] + [h[1]] == h;
    h
  }

  /** A two-character piece whose second character is '\0' read as the parser reads it: the
      parser stops at the '\0' and accepts what is left because it is all '\0', so the piece
      has the value of its first digit, as if that digit had a leading zero. Other pieces are
      unchanged. */
  function NulAsLeadingZero(p: string): (q: string)
    ensures |q| == |p|
    ensures '\0' !in p ==> q == p
  {
    if |p| == 2 && p[1] == '\0' then ['0', p[0]] else p
  }

  /** `byte.Parse(s, NumberStyles.AllowHexSpecifier)` for the one- and two-character pieces
      `ParseColor` cuts; `None` is the `FormatException`. Hexadecimal digits are read as a
      number; a digit followed by '\0' is read as that digit. */
  function ParseHexByte(s: string): (b: Option<Byte>)
    requires 1 <= |s| <= 2
    ensures b.Some? <==> HexValue(NulAsLeadingZero(s)).Some?
    ensures b.Some? ==> b.value == HexValue(NulAsLeadingZero(s)).value
    ensures '\0' !in s ==> (b.Some? <==> HexValue(s).Some?)
  {
    if |s| == 2 && s[1] == '\0' then
      HexValueTwo(['0', s[0]]);
      var d := HexDigitValue(s[0]);
      if d.None? then None else Some(d.value)
    else
      var v := HexValue(s);
      if v.None? then None
      else
        assert v.value < Pow16(|s|) <= 256;
        Some(v.value)
  }

  // ---------------------------------------------------------------------------------------
  // Hex codes and parsing

  /** `GetHexCode`: `#AARRGGBB` in upper-case hexadecimal. */
  function GetHexCode(c: Color): (s: string)
    ensures |s| == 9 && s[0] == '#'
    ensures forall i :: 1 <= i < 9 ==> ('0' <= s[i] <= '9' || 'A' <= s[i] <= 'F')
  {
    "#" + Hex2(c.a) + Hex2(c.r) + Hex2(c.g) + Hex2(c.b)
  }

  /** The eight digits of a hex code, read as a number, are the colour's ARGB value. */
  lemma GetHexCodeValue(c: Color)
    ensures HexValue(GetHexCode(c)[1..]) == Some(Argb(c))
  {
    var ha, hr, hg, hb := Hex2(c.a), Hex2(c.r), Hex2(c.g), Hex2(c.b);
    assert GetHexCode(c)[1..] == ((ha + hr) + hg) + hb;
    HexValueAppend2(ha, hr);
    HexValueAppend2(ha + hr, hg);
    HexValueAppend2(ha + hr + hg, hb);
  }

  /** `GetStandardColorName`: the key of the known-colour dictionary, with the spaces removed
      and the letters in upper case. */
  function GetStandardColorName(name: string): string
  {
    ToUpper(RemoveSpaces(name))
  }

  /** A dictionary key holds no spaces and no lower-case letters, and naming a colour with
      other spaces or other letter case gives the same key. */
  lemma StandardNameShape(name: string)
    ensures var key := GetStandardColorName(name);
      |key| <= |name| && forall i :: 0 <= i < |key| ==> key[i] != ' ' && !IsLowerAscii(key[i])
    ensures GetStandardColorName(GetStandardColorName(name)) == GetStandardColorName(name)
  {
    var key := GetStandardColorName(name);
    assert RemoveSpaces(key) == key by { RemoveSpacesNoSpaces(key); }
    assert ToUpper(key) == key;
  }

  /** The text `ParseColor` goes on with: trimmed, and without one leading '#'. */
  function ColorText(s: string): string
  {
    var t := Trim(s);
    if |t| > 0 && t[0] == '#' then t[1..] else t
  }

  /** The channels `ParseColor` cuts from `len` hexadecimal characters: alpha (optional), red
      and green (optional) and blue, parsed with `byte.Parse`; alpha defaults to 255, red and
      green to 0. */
  function ColorFromPieces(a: Option<string>, r: Option<string>, g: Option<string>, b: string)
    : (res: Result<Color, ParseError>)
    requires a.Some? ==> 1 <= |a.value| <= 2
    requires r.Some? ==> 1 <= |r.value| <= 2
    requires g.Some? ==> 1 <= |g.value| <= 2
    requires 1 <= |b| <= 2
  {
    var pa := if a.None? then Some(255) else ParseHexByte(a.value);
    var pr := if r.None? then Some(0) else ParseHexByte(r.value);
    var pg := if g.None? then Some(0) else ParseHexByte(g.value);
    var pb := ParseHexByte(b);
    if pa.None? || pr.None? || pg.None? || pb.None? then Err(Format)
    else Ok(Color(pa.value, pr.value, pg.value, pb.value))
  }

  /** `ParseColor` from the point where the text has been trimmed and stripped of its '#':
      an empty text is a `FormatException`, a known colour name (spaces and case ignored)
      gives that colour, and otherwise the text is cut into one-byte pieces by its length. */
  function ParseColorText(known: map<string, Color>, t: string): (res: Result<Color, ParseError>)
    ensures res != Err(NullReference)
    ensures t == "" ==> res == Err(Format)
    ensures t != "" && GetStandardColorName(t) in known ==> res == Ok(known[GetStandardColorName(t)])
  {
    if t == "" then Err(Format)
    else if GetStandardColorName(t) in known then Ok(known[GetStandardColorName(t)])
    else
      var len := |t|;
      if len <= 2 then ColorFromPieces(None, None, None, t)
      else if len <= 4 then ColorFromPieces(None, None, Some(t[..len - 2]), t[len - 2..])
      else if len <= 6 then
        ColorFromPieces(None, Some(t[..len - 4]), Some(t[len - 4..len - 2]), t[len - 2..])
      else if len <= 8 then
        ColorFromPieces(Some(t[..len - 6]), Some(t[len - 6..len - 4]), Some(t[len - 4..len - 2]), t[len - 2..])
      else Err(Format)
  }

  /** `ParseColor`: a known colour name or one to eight hexadecimal digits, with an optional
      leading '#' and surrounding white space. `known` is the known-colour dictionary; a null
      string throws `NullReferenceException` from `Trim`. */
  function ParseColor(known: map<string, Color>, s: Option<string>): (res: Result<Color, ParseError>)
    ensures res == Err(NullReference) <==> s.None?
    ensures s.Some? ==> res == ParseColorText(known, ColorText(s.value))
  {
    if s.None? then Err(NullReference) else ParseColorText(known, ColorText(s.value))
  }

  /** A text without white space at either end is cut only by removing a leading '#'. */
  lemma ColorTextNoMargins(s: string)
    requires s == [] || (!IsWhiteSpace(s[0]) && !IsWhiteSpace(s[|s| - 1]))
    ensures ColorText(s) == if s != [] && s[0] == '#' then s[1..] else s
  {
    TrimNoMargins(s);
  }

  /** `TryParseColor`: a `FormatException` becomes `false` and `Colors.Transparent`; the
      `NullReferenceException` for a null string is not caught. */
  function TryParseColor(known: map<string, Color>, s: Option<string>): (res: Result<(bool, Color), ParseError>)
    ensures res.Err? <==> s.None?
    ensures res.Ok? && res.value.0 ==> ParseColor(known, s) == Ok(res.value.1)
    ensures res.Ok? && !res.value.0 ==> ParseColor(known, s) == Err(Format) && res.value.1 == Transparent
  {
    match ParseColor(known, s)
    case Ok(c) => Ok((true, c))
    case Err(Format) => Ok((false, Transparent))
    case Err(NullReference) => Err(NullReference)
  }

  /** The text with each piece `ParseColor` cuts from it (by its length) read through
      `NulAsLeadingZero`; a text without '\0' is unchanged (`NulPiecesUnchanged`). */
  ghost function NulPiecesAsZeros(t: string): (n: string)
    ensures |n| == |t|
  {
    var len := |t|;
    if len <= 2 then NulAsLeadingZero(t)
    else if len <= 4 then NulAsLeadingZero(t[..len - 2]) + NulAsLeadingZero(t[len - 2..])
    else if len <= 6 then
      NulAsLeadingZero(t[..len - 4]) + NulAsLeadingZero(t[len - 4..len - 2]) + NulAsLeadingZero(t[len - 2..])
    else if len <= 8 then
      NulAsLeadingZero(t[..len - 6]) + NulAsLeadingZero(t[len - 6..len - 4])
      + NulAsLeadingZero(t[len - 4..len - 2]) + NulAsLeadingZero(t[len - 2..])
    else t
  }

  lemma NulPiecesUnchanged(t: string)
    requires '\0' !in t
    ensures NulPiecesAsZeros(t) == t
  {
    var len := |t|;
    if 2 < len <= 4 {
      assert '\0' !in t[..len - 2] && '\0' !in t[len - 2..];
      assert t == t[..len - 2] + t[len - 2..];
    } else if 4 < len <= 6 {
      assert '\0' !in t[..len - 4] && '\0' !in t[len - 4..len - 2] && '\0' !in t[len - 2..];
      assert t == t[..len - 4] + t[len - 4..len - 2] + t[len - 2..];
    } else if 6 < len <= 8 {
      assert '\0' !in t[..len - 6] && '\0' !in t[len - 6..len - 4];
      assert '\0' !in t[len - 4..len - 2] && '\0' !in t[len - 2..];
      assert t == t[..len - 6] + t[len - 6..len - 4] + t[len - 4..len - 2] + t[len - 2..];
    }
  }

  /** What `ParseColor` promises for the hexadecimal form, stated for one cut of the text. */
  ghost predicate ReadsAsHex(t: string, res: Result<Color, ParseError>)
  {
    var n := NulPiecesAsZeros(t);
    (res.Ok? <==> HexValue(n).Some?)
    && (res.Err? ==> res == Err(Format))
    && (res.Ok? ==> Argb(res.value) == HexValue(n).value + (if |t| <= 6 then 0xFF00_0000 else 0))
  }

  lemma PiecesOneTwo(t: string)
    requires 1 <= |t| <= 2
    ensures ReadsAsHex(t, ColorFromPieces(None, None, None, t))
  {
  }

  lemma PiecesThreeFour(t: string)
    requires 3 <= |t| <= 4
    ensures ReadsAsHex(t, ColorFromPieces(None, None, Some(t[..|t| - 2]), t[|t| - 2..]))
  {
    var len := |t|;
    var n1, n2 := NulAsLeadingZero(t[..len - 2]), NulAsLeadingZero(t[len - 2..]);
    assert NulPiecesAsZeros(t) == n1 + n2;
    HexValueAppend2(n1, n2);
  }

  lemma PiecesFiveSix(t: string)
    requires 5 <= |t| <= 6
    ensures ReadsAsHex(t, ColorFromPieces(None, Some(t[..|t| - 4]), Some(t[|t| - 4..|t| - 2]), t[|t| - 2..]))
  {
    var len := |t|;
    var n1, n2, n3 := NulAsLeadingZero(t[..len - 4]), NulAsLeadingZero(t[len - 4..len - 2]),
      NulAsLeadingZero(t[len - 2..]);
    assert NulPiecesAsZeros(t) == (n1 + n2) + n3;
    HexValueAppend2(n1 + n2, n3);
    HexValueAppend2(n1, n2);
  }

  lemma PiecesSevenEight(t: string)
    requires 7 <= |t| <= 8
    ensures ReadsAsHex(t, ColorFromPieces(Some(t[..|t| - 6]), Some(t[|t| - 6..|t| - 4]),
                                          Some(t[|t| - 4..|t| - 2]), t[|t| - 2..]))
  {
    var len := |t|;
    var n0, n1 := NulAsLeadingZero(t[..len - 6]), NulAsLeadingZero(t[len - 6..len - 4]);
    var n2, n3 := NulAsLeadingZero(t[len - 4..len - 2]), NulAsLeadingZero(t[len - 2..]);
    assert NulPiecesAsZeros(t) == ((n0 + n1) + n2) + n3;
    HexValueAppend2((n0 + n1) + n2, n3);
    HexValueAppend2(n0 + n1, n2);
    HexValueAppend2(n0, n1);
  }

  /** The hexadecimal form of `ParseColor`. When the text after trimming and the '#' is not a
      colour name, parsing succeeds exactly for one to eight characters that are hexadecimal
      digits once each piece ending in '\0' is read as its digit with a leading zero, and
      everything else is a `FormatException`. The digits are read as one hexadecimal number
      giving the colour's ARGB value, with alpha 0xFF when there are six characters or fewer. */
  lemma ParseColorHex(known: map<string, Color>, t: string)
    requires GetStandardColorName(t) !in known
    ensures ParseColorText(known, t).Ok? <==> (1 <= |t| <= 8 && HexValue(NulPiecesAsZeros(t)).Some?)
    ensures ParseColorText(known, t).Err? ==> ParseColorText(known, t) == Err(Format)
    ensures ParseColorText(known, t).Ok? ==>
      Argb(ParseColorText(known, t).value)
      == HexValue(NulPiecesAsZeros(t)).value + (if |t| <= 6 then 0xFF00_0000 else 0)
  {
    var len := |t|;
    if len == 0 || len > 8 {
    } else if len <= 2 {
      PiecesOneTwo(t);
    } else if len <= 4 {
      PiecesThreeFour(t);
    } else if len <= 6 {
      PiecesFiveSix(t);
    } else {
      PiecesSevenEight(t);
    }
  }

  /** A text without '\0' that is not a colour name parses exactly when it is one to eight
      hexadecimal digits, read as one number. */
  lemma ParseColorHexDigits(known: map<string, Color>, t: string)
    requires GetStandardColorName(t) !in known && '\0' !in t
    ensures ParseColorText(known, t).Ok? <==> (1 <= |t| <= 8 && HexValue(t).Some?)
    ensures ParseColorText(known, t).Err? ==> ParseColorText(known, t) == Err(Format)
    ensures ParseColorText(known, t).Ok? ==>
      Argb(ParseColorText(known, t).value) == HexValue(t).value + (if |t| <= 6 then 0xFF00_0000 else 0)
  {
    ParseColorHex(known, t);
    NulPiecesUnchanged(t);
  }

  /** A hex code written by `GetHexCode` parses back to the same colour, unless its digits
      happen to spell a known colour name. */
  lemma GetHexCodeRoundTrip(known: map<string, Color>, c: Color)
    requires GetStandardColorName(GetHexCode(c)[1..]) !in known
    ensures ParseColor(known, Some(GetHexCode(c))) == Ok(c)
  {
    var s := GetHexCode(c);
    assert !IsWhiteSpace(s[0]) && !IsWhiteSpace(s[8]);
    ColorTextNoMargins(s);
    GetHexCodeValue(c);
    ParseColorHexDigits(known, s[1..]);
    ArgbInjective(ParseColorText(known, s[1..]).value, c);
  }

  /** Different colours have different ARGB values. */
  lemma ArgbInjective(c1: Color, c2: Color)
    ensures Argb(c1) == Argb(c2) <==> c1 == c2
  {
    if Argb(c1) == Argb(c2) {
      ArgbChannels(c1);
      ArgbChannels(c2);
    }
  }

  /** The channels can be read back from the ARGB value. */
  lemma ArgbChannels(c: Color)
    ensures c.b == Argb(c) % 0x100
    ensures c.g == (Argb(c) / 0x100) % 0x100
    ensures c.r == (Argb(c) / 0x1_0000) % 0x100
    ensures c.a == Argb(c) / 0x100_0000
  {
    var v := Argb(c);
    var high := c.a * 0x100 + c.r;
    var upper := high * 0x100 + c.g;
    assert v == upper * 0x100 + c.b;
    assert v == high * 0x1_0000 + (c.g * 0x100 + c.b);
    assert v == c.a * 0x100_0000 + (c.r * 0x1_0000 + c.g * 0x100 + c.b);
    DivModUnique(upper, c.b, 0x100);
    DivModUnique(high, c.g, 0x100);
    DivModUnique(c.a, c.r, 0x100);
    DivModUnique(high, c.g * 0x100 + c.b, 0x1_0000);
    DivModUnique(c.a, c.r * 0x1_0000 + c.g * 0x100 + c.b, 0x100_0000);
  }

  /** Euclidean division of `q * d + r` with `0 <= r < d`, for the byte place values `d`,
      gives back `q` and `r`. */
  lemma DivModUnique(q: int, r: int, d: int)
    requires d == 0x100 || d == 0x1_0000 || d == 0x100_0000
    requires 0 <= r < d
    ensures (q * d + r) / d == q && (q * d + r) % d == r
  {
    if d == 0x100 {
      assert (q * 0x100 + r) / 0x100 == q;
    } else if d == 0x1_0000 {
      assert (q * 0x1_0000 + r) / 0x1_0000 == q;
    } else {
      assert (q * 0x100_0000 + r) / 0x100_0000 == q;
    }
  }

  // ---------------------------------------------------------------------------------------
  // 32-bit pixels

  /** `ColorToBgra32(Color)`: `(A << 24) | (R << 16) | (G << 8) | B`. */
  function ColorToBgra32(c: Color): (p: Int32)
    ensures Unsigned32(p) == Argb(c)
    ensures p < 0 <==> c.a >= 0x80
  {
    var p := Or(Or(Or(Shl(c.a, 24), Shl(c.r, 16)), Shl(c.g, 8)), c.b);
    PackBytes(c.a, c.r, c.g, c.b);
    p
  }

  /** `ColorToBgra32(int r, int g, int b)`: `(255 << 24) | (r << 16) | (g << 8) | b`, for any
      `int` arguments. */
  function ColorToBgra32Rgb(r: Int32, g: Int32, b: Int32): Int32
  {
    Or(Or(Or(Shl(255, 24), Shl(r, 16)), Shl(g, 8)), b)
  }

  /** On byte channels the `int` overload packs the opaque colour with those channels. */
  lemma ColorToBgra32RgbOpaque(r: Int32, g: Int32, b: Int32)
    requires 0 <= r < 256 && 0 <= g < 256 && 0 <= b < 256
    ensures ColorToBgra32Rgb(r, g, b) == ColorToBgra32(Color(255, r, g, b))
  {
    PackBytes(255, r, g, b);
    Unsigned32Injective(ColorToBgra32Rgb(r, g, b), ColorToBgra32(Color(255, r, g, b)));
  }

  /** The bytes of a packed pixel are the colour's channels: blue lowest, alpha highest. */
  lemma ColorToBgra32Bytes(c: Color)
    ensures ByteOf(ColorToBgra32(c), 0) == c.b && ByteOf(ColorToBgra32(c), 1) == c.g
    ensures ByteOf(ColorToBgra32(c), 2) == c.r && ByteOf(ColorToBgra32(c), 3) == c.a
  {
    ArgbBytes(ColorToBgra32(c), c);
  }

  /** The four bytes of an `int` whose bits read as the ARGB value of `c`. */
  lemma ArgbBytes(x: Int32, c: Color)
    requires Unsigned32(x) == Argb(c)
    ensures ByteOf(x, 0) == c.b && ByteOf(x, 1) == c.g && ByteOf(x, 2) == c.r && ByteOf(x, 3) == c.a
  {
    var u := Unsigned32(x);
    ArgbChannels(c);
    Pow2Values();
    assert ByteOf(x, 0) == u % 256 by { assert Pow2(8 * 0) == 1; }
    assert ByteOf(x, 1) == (u / 0x100) % 256 by { assert 8 * 1 == 8; }
    assert ByteOf(x, 2) == (u / 0x1_0000) % 256 by { assert 8 * 2 == 16; }
    assert ByteOf(x, 3) == (u / 0x100_0000) % 256 by { assert 8 * 3 == 24; }
  }

  lemma Unsigned32Injective(x: Int32, y: Int32)
    requires Unsigned32(x) == Unsigned32(y)
    ensures x == y
  {
  }

  /** The shifted byte channels do not overlap, so OR-ing them adds them up. */
  lemma PackBytes(a: Byte, r: Byte, g: Byte, b: Byte)
    ensures Unsigned32(Or(Or(Or(Shl(a, 24), Shl(r, 16)), Shl(g, 8)), b))
      == a * 0x100_0000 + r * 0x1_0000 + g * 0x100 + b
  {
    Pow2Values();
    ShlByte(a, 24, 0x100_0000);
    ShlByte(r, 16, 0x1_0000);
    ShlByte(g, 8, 0x100);
    OrStep(Shl(a, 24), Shl(r, 16), a, 24, 0x100_0000);
    var y1 := Or(Shl(a, 24), Shl(r, 16));
    OrStep(y1, Shl(g, 8), a * 0x100 + r, 16, 0x1_0000);
    var y2 := Or(y1, Shl(g, 8));
    OrStep(y2, b, a * 0x1_0000 + r * 0x100 + g, 8, 0x100);
  }

  /** A byte shifted left stays within the 32 bits. */
  lemma ShlByte(x: Byte, k: nat, p: nat)
    requires k <= 24 && p == Pow2(k) && p <= 0x100_0000
    ensures Unsigned32(Shl(x, k)) == x * p
  {
    assert x * p < TwoTo32;
    UnsignedWrap(x * p);
  }

  /** OR-ing a value below `p` into one whose bits read as a multiple of `p` adds it. */
  lemma OrStep(x: Int32, y: Int32, m: nat, k: nat, p: nat)
    requires p == Pow2(k) && Unsigned32(x) == m * p && Unsigned32(y) < p
    requires m * p + Unsigned32(y) < TwoTo32
    ensures Unsigned32(Or(x, y)) == m * p + Unsigned32(y)
  {
    OrDisjointP(m, Unsigned32(y), k, p);
    UnsignedWrap(m * p + Unsigned32(y));
  }

  /** `FuzzyColorEquals(Color, Color)`: channel-wise equality. */
  function FuzzyColorEquals(c1: Color, c2: Color): (eq: bool)
    ensures eq <==> Argb(c1) == Argb(c2)
  {
    ArgbInjective(c1, c2);
    c1.a == c2.a && c1.r == c2.r && c1.g == c2.g && c1.b == c2.b
  }

  // ---------------------------------------------------------------------------------------
  // Colour names

  /** The text `NiceColorName` builds before trimming: a space before every upper-case letter. */
  function SpaceBeforeUpper(name: string): (r: string)
    ensures |r| >= |name|
  {
    if name == [] then []
    else
      var c := name[|name| - 1];
      SpaceBeforeUpper(name[..|name| - 1]) + (if IsUpperAscii(c) then " " else "") + [c]
  }

  /** The display name `NiceColorName` gives a property name: "PaleGoldenrod" is shown as
      "Pale Goldenrod"; names starting with '#' are kept. */
  function NiceName(name: string): string
  {
    if |name| > 0 && name[0] == '#' then name else Trim(SpaceBeforeUpper(name))
  }

  /** `NiceColorName`: the `StringBuilder` loop. */
  method NiceColorName(name: string) returns (nice: string)
    ensures nice == NiceName(name)
  {
    if |name| > 0 && name[0] == '#' {
      return name;
    }
    var sb := "";
    var i := 0;
    while i < |name|
      invariant 0 <= i <= |name|
      invariant sb == SpaceBeforeUpper(name[..i])
    {
      assert name[..i + 1][..i] == name[..i];
      if IsUpperAscii(name[i]) {
        sb := sb + " ";
      }
      sb := sb + [name[i]];
      i := i + 1;
    }
    assert name[..i] == name;
    nice := Trim(sb);
  }

  /** `ColorItem`: a display name and its colour. */
  datatype ColorItem = ColorItem(name: string, color: Color)

  /** `GetKnownColorItems` over the colour properties (name and value) that reflection on
      `Colors` yields: one item per property, named by `NiceColorName`. */
  method GetKnownColorItems(properties: seq<(string, Color)>) returns (items: seq<ColorItem>)
    ensures |items| == |properties|
    ensures forall i :: 0 <= i < |items| ==>
      items[i] == ColorItem(NiceName(properties[i].0), properties[i].1)
  {
    items := [];
    var i := 0;
    while i < |properties|
      invariant 0 <= i <= |properties|
      invariant |items| == i
      invariant forall j :: 0 <= j < i ==>
        items[j] == ColorItem(NiceName(properties[j].0), properties[j].1)
    {
      var nice := NiceColorName(properties[i].0);
      items := items + [ColorItem(nice, properties[i].1)];
      i := i + 1;
    }
  }

  /** The dictionary keys of the items, in order. */
  function StandardNames(items: seq<ColorItem>): (names: seq<string>)
    ensures |names| == |items|
    ensures forall i :: 0 <= i < |items| ==> names[i] == GetStandardColorName(items[i].name)
  {
    seq(|items|, i requires 0 <= i < |items| => GetStandardColorName(items[i].name))
  }

  /** The static constructor's loop: every item is added to the dictionary under its standard
      name. `Dictionary.Add` throws on a repeated key, which gives `None`. */
  method BuildKnownColors(items: seq<ColorItem>) returns (known: Option<map<string, Color>>)
    ensures var names := StandardNames(items);
      known.Some? <==> forall i, j :: 0 <= i < j < |names| ==> names[i] != names[j]
    ensures known.Some? ==> forall key :: key in known.value <==> key in StandardNames(items)
    ensures known.Some? ==> forall i :: 0 <= i < |items| ==>
      known.value[StandardNames(items)[i]] == items[i].color
  {
    ghost var names := StandardNames(items);
    var m: map<string, Color> := map[];
    ghost var position: map<string, nat> := map[];  // where each key was added
    var i := 0;
    while i < |items|
      invariant 0 <= i <= |items|
      invariant position.Keys == m.Keys
      invariant forall k :: 0 <= k < i ==> names[k] in position && position[names[k]] == k
      invariant forall k :: 0 <= k < i ==> m[names[k]] == items[k].color
      invariant forall key :: key in position ==> position[key] < i && names[position[key]] == key
    {
      var key := GetStandardColorName(items[i].name);
      if key in m {
        assert names[position[key]] == names[i];
        return None;
      }
      m := m[key := items[i].color];
      position := position[key := i];
      i := i + 1;
    }
    return Some(m);
  }

  /** `IsKnownColor`: the name of the first item with the given colour. */
  method IsKnownColor(items: seq<ColorItem>, color: Color) returns (found: bool, name: Option<string>)
    ensures found <==> exists i :: 0 <= i < |items| && items[i].color == color
    ensures !found ==> name.None?
    ensures found ==> exists i :: (0 <= i < |items| && items[i].color == color
      && name == Some(items[i].name)
      && forall j :: 0 <= j < i ==> items[j].color != color)
  {
    var i := 0;
    while i < |items|
      invariant 0 <= i <= |items|
      invariant forall j :: 0 <= j < i ==> items[j].color != color
    {
      if items[i].color == color {
        return true, Some(items[i].name);
      }
      i := i + 1;
    }
    return false, None;
  }

  lemma RemoveSpacesNoSpaces(s: string)
    requires forall i :: 0 <= i < |s| ==> s[i] != ' '
    ensures RemoveSpaces(s) == s
  {
    if s != [] { RemoveSpacesNoSpaces(s[1..]); }
  }

  lemma RemoveSpacesAllSpaces(s: string)
    requires forall i :: 0 <= i < |s| ==> s[i] == ' '
    ensures RemoveSpaces(s) == ""
  {
    if s != [] { RemoveSpacesAllSpaces(s[1..]); }
  }

  /** Inserting spaces changes nothing once the spaces are removed again. */
  lemma {:induction false} RemoveSpacesSpaceBeforeUpper(name: string)
    ensures RemoveSpaces(SpaceBeforeUpper(name)) == RemoveSpaces(name)
  {
    if name != [] {
      var init, c := name[..|name| - 1], name[|name| - 1];
      assert name == init + [c];
      RemoveSpacesSpaceBeforeUpper(init);
      RemoveSpacesAppend(SpaceBeforeUpper(init) + (if IsUpperAscii(c) then " " else ""), [c]);
      RemoveSpacesAppend(SpaceBeforeUpper(init), if IsUpperAscii(c) then " " else "");
      RemoveSpacesAppend(init, [c]);
    }
  }

  /** Trimming a text whose only white space is the plain space removes nothing but spaces. */
  lemma RemoveSpacesTrim(s: string)
    requires forall i :: 0 <= i < |s| ==> IsWhiteSpace(s[i]) ==> s[i] == ' '
    ensures RemoveSpaces(Trim(s)) == RemoveSpaces(s)
  {
    var start := TrimStartIndex(s, 0);
    var end := TrimEndIndex(s, start, |s|);
    TrimMargins(s);
    RemoveSpacesMargins(s, start, end);
  }

  /** Cutting spaces off both ends does not change what `RemoveSpaces` leaves. */
  lemma RemoveSpacesMargins(s: string, start: nat, end: nat)
    requires start <= end <= |s|
    requires forall i :: 0 <= i < start ==> s[i] == ' '
    requires forall i :: end <= i < |s| ==> s[i] == ' '
    ensures RemoveSpaces(s[start..end]) == RemoveSpaces(s)
  {
    var pre, t, post := s[..start], s[start..end], s[end..];
    calc {
      RemoveSpaces(s);
      { SplitThree(s, start, end); }
      RemoveSpaces(pre + t + post);
      { RemoveSpacesAppend(pre + t, post); RemoveSpacesAppend(pre, t); }
      RemoveSpaces(pre) + RemoveSpaces(t) + RemoveSpaces(post);
      { RemoveSpacesAllSpaces(pre); RemoveSpacesAllSpaces(post); }
      RemoveSpaces(t);
    }
  }

  lemma SpaceBeforeUpperChars(name: string)
    ensures forall i :: 0 <= i < |SpaceBeforeUpper(name)| ==>
      SpaceBeforeUpper(name)[i] == ' ' || SpaceBeforeUpper(name)[i] in name
  {
    if name != [] {
      SpaceBeforeUpperChars(name[..|name| - 1]);
    }
  }

  /** A colour registered under its display name is found under its property name: the
      dictionary key of `NiceColorName(p)` is the key of `p`, for property names without
      white space. */
  lemma StandardNameOfNiceName(p: string)
    requires forall i :: 0 <= i < |p| ==> !IsWhiteSpace(p[i])
    ensures GetStandardColorName(NiceName(p)) == GetStandardColorName(p)
  {
    if |p| > 0 && p[0] == '#' {
    } else {
      SpaceBeforeUpperChars(p);
      RemoveSpacesTrim(SpaceBeforeUpper(p));
      RemoveSpacesSpaceBeforeUpper(p);
    }
  }

  /** Upper-case hexadecimal digits are their own dictionary key. */
  lemma HexDigitsKey(t: string)
    requires forall i :: 0 <= i < |t| ==> ('0' <= t[i] <= '9' || 'A' <= t[i] <= 'F')
    ensures GetStandardColorName(t) == t
  {
    RemoveSpacesNoSpaces(t);
    var u := ToUpper(t);
    assert forall i :: 0 <= i < |t| ==> u[i] == t[i];
  }

  /** A '#' followed by upper-case hexadecimal digits cuts to the digits. */
  lemma HashDigitsText(t: string)
    requires 1 <= |t| && forall i :: 0 <= i < |t| ==> ('0' <= t[i] <= '9' || 'A' <= t[i] <= 'F')
    ensures ColorText("#" + t) == t
  {
    var s := "#" + t;
    assert s[|s| - 1] == t[|t| - 1];
    ColorTextNoMargins(s);
    assert s[1..] == t;
  }

  /** One hexadecimal test vector: `"#" + t`, whose digits read as `v`, parses to `c`. */
  lemma ParseColorExample(known: map<string, Color>, t: string, v: nat, c: Color)
    requires forall k :: k in known ==> HexValue(k).None?
    requires 1 <= |t| <= 8 && forall i :: 0 <= i < |t| ==> ('0' <= t[i] <= '9' || 'A' <= t[i] <= 'F')
    requires HexValue(t) == Some(v)
    requires Argb(c) == v + (if |t| <= 6 then 0xFF00_0000 else 0)
    ensures ParseColor(known, Some("#" + t)) == Ok(c)
  {
    HashDigitsText(t);
    HexDigitsKey(t);
    ParseColorHexDigits(known, t);
    ArgbInjective(ParseColorText(known, t).value, c);
  }

  /** A piece ending in '\0' reads as its digit: "#F\0" has blue 0x0F. */
  lemma ParseColorNulDigit(known: map<string, Color>)
    requires "F\0" !in known
    ensures ParseColor(known, Some("#F\0")) == Ok(Color(255, 0, 0, 15))
  {
    RemoveSpacesNoSpaces("F\0");
    assert ToUpper("F\0") == "F\0";
    var s := "#F\0";
    assert !IsWhiteSpace(s[0]) && !IsWhiteSpace(s[2]);
    ColorTextNoMargins(s);
    assert s[1..] == "F\0";
    assert ParseHexByte("F\0") == Some(15);
  }

  /** In "FF\0" the pieces are "F" and "F\0": green and blue are both 0x0F. */
  lemma ParseColorNulSecondPiece(known: map<string, Color>)
    requires "FF\0" !in known
    ensures ParseColorText(known, "FF\0") == Ok(Color(255, 0, 15, 15))
  {
    RemoveSpacesNoSpaces("FF\0");
    assert ToUpper("FF\0") == "FF\0";
    assert "FF\0"[..1] == "F" && "FF\0"[1..] == "F\0";
    assert ParseHexByte("F") == Some(15) by {
      HexValueSnoc("", 'F');
      assert "" + ['F'] == "F";
    }
    assert ParseHexByte("F\0") == Some(15);
    assert ParseColorText(known, "FF\0") == ColorFromPieces(None, None, Some("F"), "F\0");
  }

  /** The values of the prefixes of "FF40E0D0". */
  lemma PrefixHexValues()
    ensures HexValue("F") == Some(0xF) && HexValue("FF") == Some(0xFF)
    ensures HexValue("FF4") == Some(0xFF4) && HexValue("FF40") == Some(0xFF40)
    ensures HexValue("FF40E") == Some(0xFF40E) && HexValue("FF40E0") == Some(0xFF40E0)
    ensures HexValue("FF40E0D") == Some(0xFF40E0D) && HexValue("FF40E0D0") == Some(0xFF40E0D0)
  {
    assert HexValue("F") == Some(0xF) by { HexValueSnoc("", 'F'); assert "" + ['F'] == "F"; }
    assert HexValue("FF") == Some(0xFF) by { HexValueSnoc("F", 'F'); assert "F" + ['F'] == "FF"; }
    assert HexValue("FF4") == Some(0xFF4) by { HexValueSnoc("FF", '4'); assert "FF" + ['4'] == "FF4"; }
    assert HexValue("FF40") == Some(0xFF40) by { HexValueSnoc("FF4", '0'); assert "FF4" + ['0'] == "FF40"; }
    assert HexValue("FF40E") == Some(0xFF40E) by { HexValueSnoc("FF40", 'E'); assert "FF40" + ['E'] == "FF40E"; }
    assert HexValue("FF40E0") == Some(0xFF40E0) by { HexValueSnoc("FF40E", '0'); assert "FF40E" + ['0'] == "FF40E0"; }
    assert HexValue("FF40E0D") == Some(0xFF40E0D) by { HexValueSnoc("FF40E0", 'D'); assert "FF40E0" + ['D'] == "FF40E0D"; }
    assert HexValue("FF40E0D0") == Some(0xFF40E0D0) by { HexValueSnoc("FF40E0D", '0'); assert "FF40E0D" + ['0'] == "FF40E0D0"; }
  }

  /** One digit is the blue channel's low nibble. */
  lemma ParseColorOneDigit(known: map<string, Color>)
    requires forall k :: k in known ==> HexValue(k).None?
    ensures ParseColorText(known, "F") == Ok(Color(255, 0, 0, 15))
  {
    PrefixHexValues();
    HexDigitsKey("F");
    ParseColorHexDigits(known, "F");
    ArgbInjective(ParseColorText(known, "F").value, Color(255, 0, 0, 15));
  }

  /** Three digits: the first is green's low nibble. */
  lemma ParseColorThreeDigits(known: map<string, Color>)
    requires forall k :: k in known ==> HexValue(k).None?
    ensures ParseColorText(known, "FF4") == Ok(Color(255, 0, 15, 244))
  {
    PrefixHexValues();
    HexDigitsKey("FF4");
    ParseColorHexDigits(known, "FF4");
    ArgbInjective(ParseColorText(known, "FF4").value, Color(255, 0, 15, 244));
  }

  /** Six digits are red, green and blue, opaque. */
  lemma ParseColorSixDigits(known: map<string, Color>)
    requires forall k :: k in known ==> HexValue(k).None?
    ensures ParseColorText(known, "FF40E0") == Ok(Color(255, 255, 64, 224))
  {
    PrefixHexValues();
    HexDigitsKey("FF40E0");
    ParseColorHexDigits(known, "FF40E0");
    ArgbInjective(ParseColorText(known, "FF40E0").value, Color(255, 255, 64, 224));
  }

  /** Seven digits: the first is alpha's low nibble. */
  lemma ParseColorSevenDigits(known: map<string, Color>)
    requires forall k :: k in known ==> HexValue(k).None?
    ensures ParseColorText(known, "FF40E0D") == Ok(Color(15, 244, 14, 13))
  {
    PrefixHexValues();
    HexDigitsKey("FF40E0D");
    ParseColorHexDigits(known, "FF40E0D");
    ArgbInjective(ParseColorText(known, "FF40E0D").value, Color(15, 244, 14, 13));
  }

  /** Eight digits are alpha, red, green and blue. */
  lemma ParseColorEightDigits(known: map<string, Color>)
    requires forall k :: k in known ==> HexValue(k).None?
    ensures ParseColorText(known, "FF40E0D0") == Ok(Color(255, 64, 224, 208))
  {
    PrefixHexValues();
    HexDigitsKey("FF40E0D0");
    ParseColorHexDigits(known, "FF40E0D0");
    ArgbInjective(ParseColorText(known, "FF40E0D0").value, Color(255, 64, 224, 208));
  }

  lemma {:induction false} SpaceBeforeUpperAppend(x: string, y: string)
    ensures SpaceBeforeUpper(x + y) == SpaceBeforeUpper(x) + SpaceBeforeUpper(y)
  {
    if y == [] {
      assert x + y == x;
    } else {
      var y', c := y[..|y| - 1], y[|y| - 1];
      assert (x + y)[..|x + y| - 1] == x + y';
      assert (x + y)[|x + y| - 1] == c;
      SpaceBeforeUpperAppend(x, y');
    }
  }

  /** A capitalised word gets one space, in front. */
  lemma {:induction false} SpaceBeforeUpperWord(w: string)
    requires |w| >= 1 && IsUpperAscii(w[0])
    requires forall i :: 1 <= i < |w| ==> !IsUpperAscii(w[i])
    ensures SpaceBeforeUpper(w) == " " + w
  {
    if |w| == 1 {
      assert w[..0] == [];
    } else {
      SpaceBeforeUpperWord(w[..|w| - 1]);
    }
  }

  lemma SpaceBeforeUpperPale()
    ensures SpaceBeforeUpper("Pale") == " Pale"
  {
    SpaceBeforeUpperWord("Pale");
  }

  lemma SpaceBeforeUpperGoldenrod()
    ensures SpaceBeforeUpper("Goldenrod") == " Goldenrod"
  {
    SpaceBeforeUpperWord("Goldenrod");
  }

  /** The two words of "PaleGoldenrod" each get a space in front. */
  lemma SpaceBeforeUpperExample()
    ensures SpaceBeforeUpper("PaleGoldenrod") == " Pale Goldenrod"
  {
    assert "PaleGoldenrod" == "Pale" + "Goldenrod";
    SpaceBeforeUpperAppend("Pale", "Goldenrod");
    SpaceBeforeUpperPale();
    SpaceBeforeUpperGoldenrod();
  }

  /** The display name from the tests: a property name is split into words. */
  lemma NiceNameExample()
    ensures NiceName("PaleGoldenrod") == "Pale Goldenrod"
  {
    SpaceBeforeUpperExample();
    var spaced := " Pale Goldenrod";
    assert TrimStartIndex(spaced, 0) == 1;
    assert spaced[1..] == "Pale Goldenrod";
  }

  /** The packed pixel of PaleGreen from the tests. */
  lemma PixelExample()
    ensures Unsigned32(ColorToBgra32(Color(0xFF, 0x98, 0xFB, 0x98))) == 0xFF98FB98
  {
  }

  /** The hex code of OrangeRed from the tests. */
  lemma HexCodeExample()
    ensures GetHexCode(Color(255, 255, 69, 0)) == "#FFFF4500"
  {
  }
}
