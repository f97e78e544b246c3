/** The colour picker dialog's integer parts: the 256 x 256 pixel maps the three RGB selectors
    paint for a fixed channel, and the hexadecimal text box, which keeps the last text it could
    read as a colour and falls back to it. */
module ColorPickerDialog {
  import opened Common
  import opened Int32Bits
  import opened Text
  import opened ColorUtilities

  /** `ByteValues`: the side of the pixel map. */
  const ByteValues: int := 256
  const PixelCount: int := 256 * 256

  /** Row and column of a pixel map index, and back: the index map `row * 256 + column` is a
      bijection between `[0, 256) x [0, 256)` and `[0, 65536)`. */
  lemma IndexOfCell(row: int, column: int)
    requires 0 <= row < ByteValues && 0 <= column < ByteValues
    ensures 0 <= row * ByteValues + column < PixelCount
    ensures (row * ByteValues + column) / ByteValues == row && (row * ByteValues + column) % ByteValues == column
  {
  }

  lemma CellOfIndex(i: int)
    requires 0 <= i < PixelCount
    ensures 0 <= i / ByteValues < ByteValues && 0 <= i % ByteValues < ByteValues
    ensures i == (i / ByteValues) * ByteValues + i % ByteValues
  {
  }

  /** The colour the red selector paints at index `i`: green falls from 255 down the rows,
      blue rises along each row. */
  function RedDetailsColor(r: Byte, i: int): Color
    requires 0 <= i < PixelCount
  {
    Color(255, r, 255 - i / ByteValues, i % ByteValues)
  }

  /** The colour the green selector paints at index `i`: red falls from 255 down the rows,
      blue rises along each row. */
  function GreenDetailsColor(g: Byte, i: int): Color
    requires 0 <= i < PixelCount
  {
    Color(255, 255 - i / ByteValues, g, i % ByteValues)
  }

  /** The colour the blue selector paints at index `i`: green falls from 255 down the rows,
      red rises along each row. */
  function BlueDetailsColor(b: Byte, i: int): Color
    requires 0 <= i < PixelCount
  {
    Color(255, i % ByteValues, 255 - i / ByteValues, b)
  }

  /** `ColorToBgra32(r, g, b)` on byte channels has the bits of the opaque colour (r, g, b). */
  lemma OpaquePixelBits(r: int, g: int, b: int)
    requires 0 <= r < 256 && 0 <= g < 256 && 0 <= b < 256
    ensures Unsigned32(ColorToBgra32Rgb(r, g, b)) == Argb(Color(255, r, g, b))
  {
    ColorToBgra32RgbOpaque(r, g, b);
  }

  /** A pixel holding the bits of an opaque colour is that colour packed: its top byte is
      0xFF and its other bytes are the channels. */
  lemma OpaquePixel(p: Int32, c: Color)
    requires c.a == 255 && Unsigned32(p) == Argb(c)
    ensures p == ColorToBgra32Rgb(c.r, c.g, c.b) && p == ColorToBgra32(c)
    ensures ByteOf(p, 3) == 255 && ByteOf(p, 2) == c.r && ByteOf(p, 1) == c.g && ByteOf(p, 0) == c.b
  {
    ColorToBgra32RgbOpaque(c.r, c.g, c.b);
    Unsigned32Injective(p, ColorToBgra32(c));
    ColorToBgra32Bytes(c);
  }

  /** Cell (g, b) of the red map holds `ColorToBgra32(r, 255 - g, b)`: opaque, red `r`. */
  lemma RedDetailsCell(r: Byte, g: int, b: int, p: Int32)
    requires 0 <= g < ByteValues && 0 <= b < ByteValues
    requires Unsigned32(p) == Argb(RedDetailsColor(r, g * ByteValues + b))
    ensures p == ColorToBgra32Rgb(r, 255 - g, b)
    ensures ByteOf(p, 3) == 255 && ByteOf(p, 2) == r && ByteOf(p, 1) == 255 - g && ByteOf(p, 0) == b
  {
    IndexOfCell(g, b);
    OpaquePixel(p, Color(255, r, 255 - g, b));
  }

  /** Cell (r, b) of the green map holds `ColorToBgra32(255 - r, g, b)`: opaque, green `g`. */
  lemma GreenDetailsCell(g: Byte, r: int, b: int, p: Int32)
    requires 0 <= r < ByteValues && 0 <= b < ByteValues
    requires Unsigned32(p) == Argb(GreenDetailsColor(g, r * ByteValues + b))
    ensures p == ColorToBgra32Rgb(255 - r, g, b)
    ensures ByteOf(p, 3) == 255 && ByteOf(p, 2) == 255 - r && ByteOf(p, 1) == g && ByteOf(p, 0) == b
  {
    IndexOfCell(r, b);
    OpaquePixel(p, Color(255, 255 - r, g, b));
  }

  /** Cell (g, r) of the blue map holds `ColorToBgra32(r, 255 - g, b)`: opaque, blue `b`. */
  lemma BlueDetailsCell(b: Byte, r: int, g: int, p: Int32)
    requires 0 <= r < ByteValues && 0 <= g < ByteValues
    requires Unsigned32(p) == Argb(BlueDetailsColor(b, g * ByteValues + r))
    ensures p == ColorToBgra32Rgb(r, 255 - g, b)
    ensures ByteOf(p, 3) == 255 && ByteOf(p, 2) == r && ByteOf(p, 1) == 255 - g && ByteOf(p, 0) == b
  {
    IndexOfCell(g, r);
    OpaquePixel(p, Color(255, r, 255 - g, b));
  }

  /** Whether the column-by-column blue fill has written index `i` once it has done the
      columns before `r` and the rows before `g` of column `r`. */
  predicate BlueDone(r: int, g: int, i: int)
  {
    i % ByteValues < r || (i % ByteValues == r && i / ByteValues < g)
  }

  /** The pixel buffer shared by the RGB selectors: 256 x 256 packed BGRA32 pixels. */
  class RgbColorSelector {
    const pixels: array<Int32>

    constructor()
      ensures pixels.Length == PixelCount && fresh(pixels)
    {
      pixels := new Int32[PixelCount];
    }

    /** The loops' one statement, `_pixels[i] = ColorToBgra32(r, g, b)`: pixel `i` gets the
        bits of the opaque colour (r, g, b), and no other pixel changes. */
    method PaintPixel(i: int, r: Byte, g: Byte, b: Byte)
      requires 0 <= i < pixels.Length
      modifies pixels
      ensures Unsigned32(pixels[i]) == Argb(Color(255, r, g, b))
      ensures forall k :: 0 <= k < pixels.Length && k != i ==> pixels[k] == old(pixels[k])
    {
      OpaquePixelBits(r, g, b);
      pixels[i] := ColorToBgra32Rgb(r, g, b);
    }

    /** `RgbRColorSelector.GetColorDetailsBrush` for a colour whose red channel is `r`: row g,
        column b, row by row. */
    method RedDetails(r: Byte)
      requires pixels.Length == PixelCount
      modifies pixels
      ensures forall i :: 0 <= i < PixelCount ==> Unsigned32(pixels[i]) == Argb(RedDetailsColor(r, i))
    {
      var g := 0;
      while g < ByteValues
        invariant 0 <= g <= ByteValues
        invariant forall i :: 0 <= i < g * ByteValues ==> Unsigned32(pixels[i]) == Argb(RedDetailsColor(r, i))
      {
        var b := 0;
        while b < ByteValues
          invariant 0 <= b <= ByteValues
          invariant forall i :: 0 <= i < g * ByteValues + b ==> Unsigned32(pixels[i]) == Argb(RedDetailsColor(r, i))
        {
          IndexOfCell(g, b);
          PaintPixel(g * ByteValues + b, r, 255 - g, b);
          b := b + 1;
        }
        g := g + 1;
      }
    }

    /** `RgbGColorSelector.GetColorDetailsBrush` for a colour whose green channel is `g`: row r,
        column b, row by row. */
    method GreenDetails(g: Byte)
      requires pixels.Length == PixelCount
      modifies pixels
      ensures forall i :: 0 <= i < PixelCount ==> Unsigned32(pixels[i]) == Argb(GreenDetailsColor(g, i))
    {
      var r := 0;
      while r < ByteValues
        invariant 0 <= r <= ByteValues
        invariant forall i :: 0 <= i < r * ByteValues ==> Unsigned32(pixels[i]) == Argb(GreenDetailsColor(g, i))
      {
        var b := 0;
        while b < ByteValues
          invariant 0 <= b <= ByteValues
          invariant forall i :: 0 <= i < r * ByteValues + b ==> Unsigned32(pixels[i]) == Argb(GreenDetailsColor(g, i))
        {
          IndexOfCell(r, b);
          PaintPixel(r * ByteValues + b, 255 - r, g, b);
          b := b + 1;
        }
        r := r + 1;
      }
    }

    /** `RgbBColorSelector.GetColorDetailsBrush` for a colour whose blue channel is `b`: the
        outer loop runs over the columns r, the inner one down the rows g, so the map is filled
        column by column. */
    method BlueDetails(b: Byte)
      requires pixels.Length == PixelCount
      modifies pixels
      ensures forall i :: 0 <= i < PixelCount ==> Unsigned32(pixels[i]) == Argb(BlueDetailsColor(b, i))
    {
      var r := 0;
      while r < ByteValues
        invariant 0 <= r <= ByteValues
        invariant forall i :: 0 <= i < PixelCount && BlueDone(r, 0, i) ==> Unsigned32(pixels[i]) == Argb(BlueDetailsColor(b, i))
      {
        var g := 0;
        while g < ByteValues
          invariant 0 <= g <= ByteValues
          invariant forall i :: 0 <= i < PixelCount && BlueDone(r, g, i) ==> Unsigned32(pixels[i]) == Argb(BlueDetailsColor(b, i))
        {
          IndexOfCell(g, r);
          PaintPixel(g * ByteValues + r, r, 255 - g, b);
          g := g + 1;
        }
        r := r + 1;
      }
    }
  }

  /** Every hex code `GetHexCode` writes is accepted by `ParseColor`: as a colour name when its
      digits happen to spell one, otherwise as eight hexadecimal digits. */
  lemma HexCodeParses(known: map<string, Color>, c: Color)
    ensures ParseColor(known, Some(GetHexCode(c))).Ok?
  {
    var s := GetHexCode(c);
    if GetStandardColorName(s[1..]) in known {
      assert !IsWhiteSpace(s[0]) && !IsWhiteSpace(s[8]);
      ColorTextNoMargins(s);
    } else {
      GetHexCodeRoundTrip(known, c);
    }
  }

  /** The dialog's hexadecimal text box. `known` is the known-colour dictionary `ParseColor`
      looks names up in; `enteredColor` is the last colour read from the box, which the dialog
      hands on to its HSV selection. */
  class HexValueBox {
    const known: map<string, Color>
    var text: string
    var selectionStart: nat
    var selectionLength: nat
    var lastHexValueInput: string
    var enteredColor: Color

    /** The text the box falls back to is empty (at first) or a text `ParseColor` accepts. */
    ghost predicate Valid()
      reads this
    {
      lastHexValueInput == "" || ParseColor(known, Some(lastHexValueInput)).Ok?
    }

    constructor(known: map<string, Color>, initial: Color)
      ensures Valid() && this.known == known
      ensures text == "" && lastHexValueInput == "" && enteredColor == initial
      ensures selectionStart == 0 && selectionLength == 0
    {
      this.known := known;
      text := "";
      selectionStart := 0;
      selectionLength := 0;
      lastHexValueInput := "";
      enteredColor := initial;
    }

    /** The hex part of the dialog's colour change handler, for a colour not typed into the
        box: the box shows `GetHexCode` of the new colour, which becomes the fallback text. */
    method ColorChanged(c: Color)
      requires Valid()
      modifies this
      ensures Valid()
      ensures text == GetHexCode(c)
      ensures old(text) != GetHexCode(c) ==> lastHexValueInput == GetHexCode(c)
      ensures old(text) == GetHexCode(c) ==> lastHexValueInput == old(lastHexValueInput)
      ensures selectionStart == old(selectionStart) && selectionLength == old(selectionLength)
      ensures enteredColor == old(enteredColor)
    {
      var code := GetHexCode(c);
      if text != code {
        text := code;
        HexCodeParses(known, c);
        lastHexValueInput := code;
      }
    }

    /** `hexValueTextBox_TextChanged` after the user has changed the box to `newText` with the
        caret at `caret`. Blank text or a lone '#' is left alone; a text `TryParseColor`
        accepts is taken, trimmed, as the new fallback; any other text is replaced by the
        fallback, with the caret one place back but not before the start. */
    method TextChanged(newText: string, caret: nat, selected: nat)
      requires Valid()
      modifies this
      ensures Valid()
      ensures var t := Trim(newText);
        (t == "" || t == "#" ==>
          text == newText && lastHexValueInput == old(lastHexValueInput) && enteredColor == old(enteredColor)
          && selectionStart == caret && selectionLength == selected)
        && (t != "" && t != "#" && ParseColor(known, Some(t)).Ok? ==>
          text == newText && lastHexValueInput == t && enteredColor == ParseColor(known, Some(t)).value
          && selectionStart == caret && selectionLength == selected)
        && (t != "" && t != "#" && !ParseColor(known, Some(t)).Ok? ==>
          text == old(lastHexValueInput) && lastHexValueInput == old(lastHexValueInput)
          && enteredColor == old(enteredColor)
          && selectionStart == (if caret == 0 then 0 else caret - 1) && selectionLength == selected)
    {
      text := newText;
      selectionStart := caret;
      selectionLength := selected;
      var t := Trim(newText);
      if t == "" || t == "#" {
        return;
      }
      var parsed := TryParseColor(known, Some(t));
      if parsed.value.0 {
        enteredColor := parsed.value.1;
        lastHexValueInput := t;
      } else {
        var start := selectionStart;
        text := lastHexValueInput;
        selectionStart := if start == 0 then 0 else start - 1;
      }
    }

    /** `hexValueTextBox_IsKeyboardFocusWithinChanged`: losing the keyboard focus puts the
        fallback text back into the box. */
    method FocusWithinChanged(focused: bool)
      requires Valid()
      modifies this
      ensures Valid()
      ensures !focused ==> text == old(lastHexValueInput)
      ensures focused ==> text == old(text)
      ensures lastHexValueInput == old(lastHexValueInput) && enteredColor == old(enteredColor)
      ensures selectionStart == old(selectionStart) && selectionLength == old(selectionLength)
    {
      if !focused {
        text := lastHexValueInput;
      }
    }
  }
}
