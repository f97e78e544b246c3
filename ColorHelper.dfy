/** The colour helpers used by the colour picker: an `#RRGGBB` formatter and the byte swap
    between BGR and RGB integers. */
module ColorHelper {
  import opened Common
  import opened Int32Bits
  import opened Text
  import opened ColorUtilities

  /** `ColorToString`: '#' and the red, green and blue channels as two upper-case hexadecimal
      digits each; alpha is not written. */
  function ColorToString(c: Color): (s: string)
    ensures |s| == 7 && s[0] == '#'
    ensures forall i :: 1 <= i < 7 ==> ('0' <= s[i] <= '9' || 'A' <= s[i] <= 'F')
  {
    "#" + Hex2(c.r) + Hex2(c.g) + Hex2(c.b)
  }

  /** `ColorToString` is `GetHexCode` without the two alpha digits. */
  lemma ColorToStringDropsAlpha(c: Color)
    ensures ColorToString(c) == "#" + GetHexCode(c)[3..]
  {
    var ha, hr, hg, hb := Hex2(c.a), Hex2(c.r), Hex2(c.g), Hex2(c.b);
    assert GetHexCode(c) == "#" + ha + (hr + hg + hb);
    assert GetHexCode(c)[3..] == hr + hg + hb;
  }

  /** The six digits of `ColorToString` read as the colour's RGB value. */
  lemma ColorToStringValue(c: Color)
    ensures HexValue(ColorToString(c)[1..]) == Some(c.r * 0x1_0000 + c.g * 0x100 + c.b)
  {
    var hr, hg, hb := Hex2(c.r), Hex2(c.g), Hex2(c.b);
    assert ColorToString(c)[1..] == (hr + hg) + hb;
    HexValueAppend2(hr, hg);
    HexValueAppend2(hr + hg, hb);
  }

  /** `ParseColor` reads `ColorToString(c)` back as the opaque form of `c`, unless its six
      digits happen to be a colour name. */
  lemma ColorToStringRoundTrip(known: map<string, Color>, c: Color)
    requires GetStandardColorName(ColorToString(c)[1..]) !in known
    ensures ParseColor(known, Some(ColorToString(c))) == Ok(Color(255, c.r, c.g, c.b))
  {
    var s := ColorToString(c);
    assert !IsWhiteSpace(s[0]) && !IsWhiteSpace(s[6]);
    ColorTextNoMargins(s);
    ColorToStringValue(c);
    ParseColorHexDigits(known, s[1..]);
    ArgbInjective(ParseColorText(known, s[1..]).value, Color(255, c.r, c.g, c.b));
  }

  /** `BgrToRgb`: `(x & 0xFF) << 16 | (x & 0xFF00) | (x & 0xFF0000) >> 16` on a C# `int`. */
  function BgrToRgb(x: Int32): Int32
  {
    Or(Or(Shl(MaskByte(x, 0), 16), MaskByte(x, 1)), Shr(MaskByte(x, 2), 16))
  }

  /** `BgrToRgb` moves byte 0 to byte 2, keeps byte 1, moves byte 2 to byte 0, and drops
      byte 3; the result is therefore never negative and at most 0xFFFFFF. */
  lemma BgrToRgbValue(x: Int32)
    ensures BgrToRgb(x) == ByteOf(x, 0) * 0x1_0000 + ByteOf(x, 1) * 0x100 + ByteOf(x, 2)
    ensures 0 <= BgrToRgb(x) <= 0xFF_FFFF
  {
    var b0: int, b1: int, b2: int := ByteOf(x, 0), ByteOf(x, 1), ByteOf(x, 2);
    Pow2Values();
    assert MaskByte(x, 0) == b0 by { assert Pow2(8 * 0) == 1; }
    assert MaskByte(x, 1) == b1 * 0x100 by { assert 8 * 1 == 8; }
    assert Shr(MaskByte(x, 2), 16) == b2 by {
      assert 8 * 2 == 16;
      assert MaskByte(x, 2) == b2 * 0x1_0000;
    }
    ShlByte(b0, 16, 0x1_0000);
    var hi := Shl(MaskByte(x, 0), 16);
    assert hi == b0 * 0x1_0000;
    OrStep(hi, b1 * 0x100, b0, 16, 0x1_0000);
    var mid := Or(hi, b1 * 0x100);
    assert Unsigned32(mid) == (b0 * 0x100 + b1) * 0x100;
    OrStep(mid, b2, b0 * 0x100 + b1, 8, 0x100);
    UnsignedWrap(b0 * 0x1_0000 + b1 * 0x100 + b2);
  }

  /** The bytes of `BgrToRgb(x)`: red and blue are exchanged, green stays, the top byte is 0. */
  lemma BgrToRgbBytes(x: Int32)
    ensures ByteOf(BgrToRgb(x), 0) == ByteOf(x, 2)
    ensures ByteOf(BgrToRgb(x), 1) == ByteOf(x, 1)
    ensures ByteOf(BgrToRgb(x), 2) == ByteOf(x, 0)
    ensures ByteOf(BgrToRgb(x), 3) == 0
  {
    BgrToRgbValue(x);
    var c := Color(0, ByteOf(x, 0), ByteOf(x, 1), ByteOf(x, 2));
    assert Unsigned32(BgrToRgb(x)) == Argb(c);
    ArgbBytes(BgrToRgb(x), c);
  }

  /** The low three bytes of an `int`, `x & 0xFFFFFF`, as a number. */
  lemma LowBytes(x: Int32)
    ensures Unsigned32(x) % 0x100_0000 == ByteOf(x, 2) * 0x1_0000 + ByteOf(x, 1) * 0x100 + ByteOf(x, 0)
  {
    var u := Unsigned32(x);
    Pow2Values();
    var q0, q1 := u / 0x100, u / 0x1_0000;
    assert ByteOf(x, 0) == u % 0x100 by { assert Pow2(8 * 0) == 1; }
    assert ByteOf(x, 1) == q0 % 0x100 by { assert 8 * 1 == 8; }
    assert ByteOf(x, 2) == q1 % 0x100 by { assert 8 * 2 == 16; }
    assert q1 == q0 / 0x100;
    assert u == q0 * 0x100 + u % 0x100;
    assert q0 == q1 * 0x100 + q0 % 0x100;
    assert q1 == (u / 0x100_0000) * 0x100 + q1 % 0x100;
  }

  /** Swapping twice gives back the low 24 bits: `BgrToRgb(BgrToRgb(x)) == x & 0xFFFFFF`. */
  lemma BgrToRgbTwice(x: Int32)
    ensures BgrToRgb(BgrToRgb(x)) == Unsigned32(x) % 0x100_0000
  {
    var y := BgrToRgb(x);
    BgrToRgbBytes(x);
    BgrToRgbValue(y);
    LowBytes(x);
  }

  /** On the colours `BgrToRgb` produces, `[0, 0xFFFFFF]`, it is an involution. */
  lemma BgrToRgbInvolution(x: Int32)
    requires 0 <= x <= 0xFF_FFFF
    ensures BgrToRgb(BgrToRgb(x)) == x
  {
    var u := Unsigned32(x);
    assert u == x;
    assert u % 0x100_0000 == x;
    BgrToRgbTwice(x);
  }
}
