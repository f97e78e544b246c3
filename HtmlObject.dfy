/** The models behind the HTML editor's insert dialogs: a hyperlink, an image and a table. Each
    keeps the validation errors of its properties in a dictionary and turns itself into an
    HTML fragment. */
module HtmlObject {
  import opened Common
  import opened Text
  import opened DecimalMath

  /** The indexer's bookkeeping: after validating `column` with result `error`, the column is
      listed exactly when the error is neither null nor empty, with that error. */
  function RecordValidation(errors: map<string, string>, column: string, error: Option<string>): (r: map<string, string>)
    ensures column in r <==> !IsNullOrEmpty(error)
    ensures column in r ==> r[column] == error.value
    ensures forall k :: k != column ==> (k in r <==> k in errors)
    ensures forall k :: k != column && k in r ==> r[k] == errors[k]
  {
    if column in errors then
      if IsNullOrEmpty(error) then errors - {column} else errors[column := error.value]
    else if !IsNullOrEmpty(error) then errors[column := error.value]
    else errors
  }

  /** The `Error` getter as written: the message appears when the model IS valid, and null is
      returned when it is not. */
  function ErrorMessage(isValid: bool): (r: Option<string>)
    ensures r.Some? <==> isValid
    ensures isValid ==> r == Some("Model is invalid.")
  {
    if isValid then Some("Model is invalid.") else None
  }

  /** Validating a column whose error is empty removes it and leaves the others; so a model
      whose every validation returns null ends up with no errors once each listed column has
      been validated again. */
  lemma RecordCleared(errors: map<string, string>, column: string)
    ensures RecordValidation(errors, column, None) == errors - {column}
    ensures RecordValidation(errors, column, Some("")) == errors - {column}
  {
  }

  /** Recording the same result twice records nothing more. */
  lemma RecordIdempotent(errors: map<string, string>, column: string, error: Option<string>)
    ensures RecordValidation(RecordValidation(errors, column, error), column, error)
      == RecordValidation(errors, column, error)
  {
  }

  /** `<a href="Url">Text</a>`, with null rendered as the empty string: the opening of the
      anchor, the address, the end of the start tag, the text and the end tag, in that order. */
  function LinkHtml(url: Option<string>, text: Option<string>): (r: string)
    ensures |r| == 15 + |Show(url)| + |Show(text)|
    ensures r[..9] == "<a href=\"" && r[|r| - 4..] == "</a>"
    ensures r[9..9 + |Show(url)|] == Show(url)
    ensures r[9 + |Show(url)|..11 + |Show(url)|] == "\">"
    ensures r[11 + |Show(url)|..|r| - 4] == Show(text)
  {
    "<a href=\"" + Show(url) + "\">" + Show(text) + "</a>"
  }

  /** When the address holds no double quote, the anchor gives back both the address and the
      text: two links with the same markup have the same address and the same text. */
  lemma LinkHtmlReadBack(url: Option<string>, text: Option<string>, url': Option<string>, text': Option<string>)
    requires '"' !in Show(url) && '"' !in Show(url')
    requires LinkHtml(url, text) == LinkHtml(url', text')
    ensures Show(url) == Show(url') && Show(text) == Show(text')
  {
    LinkQuoteAt(url, text, url', text');
    LinkQuoteAt(url', text', url, text);
  }

  /** The address cannot be shorter in one of two equal anchors: the quote that closes the
      shorter one would sit inside the longer one. */
  lemma LinkQuoteAt(url: Option<string>, text: Option<string>, url': Option<string>, text': Option<string>)
    requires '"' !in Show(url')
    requires LinkHtml(url, text) == LinkHtml(url', text')
    ensures |Show(url)| >= |Show(url')|
  {
    var r := LinkHtml(url, text);
    var u, u' := |Show(url)|, |Show(url')|;
    assert r[9 + u] == '"';
    assert forall k :: 0 <= k < u' ==> r[9 + k] == Show(url')[k];
  }

  class HyperlinkObject {
    var url: Option<string>
    var text: Option<string>

    /** `ValidationErorrs` and `_isValid`. */
    var errors: map<string, string>
    var isValid: bool

    /** `Uri.TryCreate(url, UriKind.Absolute, out _)`. */
    const isAbsoluteUri: string -> bool

    constructor(isAbsoluteUri: string -> bool)
      ensures url == None && text == None && errors == map[] && !isValid
      ensures this.isAbsoluteUri == isAbsoluteUri
    {
      this.isAbsoluteUri := isAbsoluteUri;
      url, text := None, None;
      errors, isValid := map[], false;
    }

    /** `Text`: the stored text, or the URL when the text is null or empty. */
    function Text(): (r: Option<string>)
      reads this
      ensures !IsNullOrEmpty(text) ==> r == text
      ensures IsNullOrEmpty(text) ==> r == url
    {
      if !IsNullOrEmpty(text) then text else url
    }

    /** `ToHtml`: an anchor to the address that shows the text, or the address itself when
        there is no text. */
    function ToHtml(): (r: string)
      reads this
      ensures |r| >= 15 + |Show(url)|
      ensures r[..9] == "<a href=\"" && r[|r| - 4..] == "</a>"
      ensures r[9..9 + |Show(url)|] == Show(url)
      ensures !IsNullOrEmpty(text) ==> r[11 + |Show(url)|..|r| - 4] == text.value
      ensures IsNullOrEmpty(text) ==> r[11 + |Show(url)|..|r| - 4] == Show(url)
    {
      LinkHtml(url, Text())
    }

    /** A link without its own text shows its URL. */
    lemma LinkShowsUrl()
      requires IsNullOrEmpty(text)
      ensures ToHtml() == "<a href=\"" + Show(url) + "\">" + Show(url) + "</a>"
    {
    }

    /** `ValidateUrl`: an empty address, an address that is not absolute, or no error (null). */
    function ValidateUrl(): (r: Option<string>)
      reads this
      ensures IsNullOrEmpty(url) ==> r == Some("Url is empty.")
      ensures !IsNullOrEmpty(url) && isAbsoluteUri(url.value) ==> r == None
      ensures !IsNullOrEmpty(url) && !isAbsoluteUri(url.value) ==> r == Some("Url format is invalid.")
    {
      if IsNullOrEmpty(url) then Some("Url is empty.")
      else if isAbsoluteUri(url.value) then None
      else Some("Url format is invalid.")
    }

    /** `ValidateProperty`: only "Url" is validated; every other name has the empty error. */
    function ValidateProperty(name: string): (r: Option<string>)
      reads this
      ensures name != "Url" ==> r == Some("")
      ensures name == "Url" ==> r == ValidateUrl()
      ensures IsNullOrEmpty(r) <==> name != "Url" || (!IsNullOrEmpty(url) && isAbsoluteUri(url.value))
    {
      if name == "Url" then ValidateUrl() else Some("")
    }

    function Error(): (r: Option<string>)
      reads this
      ensures r == ErrorMessage(isValid)
    {
      ErrorMessage(isValid)
    }

    method SetUrl(v: Option<string>)
      modifies this
      ensures url == v && text == old(text) && errors == old(errors) && isValid == old(isValid)
    {
      url := v;
    }

    method SetText(v: Option<string>)
      modifies this
      ensures text == v && url == old(url) && errors == old(errors) && isValid == old(isValid)
    {
      text := v;
    }

    /** The indexer `this[column]`: validates the column, records the outcome, and sets
        `IsValid` to whether no error is left. */
    method Item(column: string) returns (error: Option<string>)
      modifies this
      ensures error == ValidateProperty(column)
      ensures errors == RecordValidation(old(errors), column, error)
      ensures isValid <==> errors == map[]
      ensures url == old(url) && text == old(text)
    {
      error := ValidateProperty(column);
      errors := RecordValidation(errors, column, error);
      isValid := errors == map[];
    }
  }

  /** The part of the image element before the optional title: the source, the alternative
      text, the width and the height attributes, each closed by a quote and a space. */
  function ImageHead(source: string, alt: Option<string>, width: int, height: int): (h: string)
    ensures |h| >= 10 + |source| && h[..10] == "<img src=\"" && h[10..10 + |source|] == source
    ensures h[|h| - 2..] == "\" "
  {
    var front := "<img src=\"" + source;
    var h := front + ("\" alt=\"" + Show(alt) + "\" width=\"" + IntToString(width)
      + "\" height=\"" + IntToString(height) + "\" ");
    assert h[..|front|] == front;
    h
  }

  /** The attributes of the head, read back by position: after the source come the alternative
      text, the width and the height, each in its own quoted attribute. */
  lemma ImageHeadAttributes(source: string, alt: Option<string>, width: int, height: int)
    ensures var h := ImageHead(source, alt, width, height);
      var a := 10 + |source|; var b := a + 7 + |Show(alt)|;
      var c := b + 9 + |IntToString(width)|;
      |h| == c + 10 + |IntToString(height)| + 2
      && h[a..a + 7] == "\" alt=\"" && h[a + 7..b] == Show(alt)
      && h[b..b + 9] == "\" width=\"" && h[b + 9..c] == IntToString(width)
      && h[c..c + 10] == "\" height=\"" && h[c + 10..c + 10 + |IntToString(height)|] == IntToString(height)
  {
    AttributeSlices(source, Show(alt), IntToString(width), IntToString(height));
  }

  /** The same positions for any texts in the four places. */
  lemma {:induction false} AttributeSlices(source: string, alt: string, width: string, height: string)
    ensures var front := "<img src=\"" + source;
      var h := front + ("\" alt=\"" + alt + "\" width=\"" + width + "\" height=\"" + height + "\" ");
      var a := 10 + |source|; var b := a + 7 + |alt|; var c := b + 9 + |width|;
      |h| == c + 10 + |height| + 2
      && h[a..a + 7] == "\" alt=\"" && h[a + 7..b] == alt
      && h[b..b + 9] == "\" width=\"" && h[b + 9..c] == width
      && h[c..c + 10] == "\" height=\"" && h[c + 10..c + 10 + |height|] == height
  {
    var front := "<img src=\"" + source;
    var tail := "\" alt=\"" + alt + "\" width=\"" + width + "\" height=\"" + height + "\" ";
    var h := front + tail;
    assert h[|front|..] == tail;
    var t1 := "\" alt=\"" + alt;
    var t2 := t1 + "\" width=\"" + width;
    var t3 := t2 + "\" height=\"" + height;
    assert tail[..|t3|] == t3;
    assert t3[..|t2|] == t2;
    assert t2[..|t1|] == t1;
  }

  /** `<img src="..." alt="..." width="W" height="H" title="..." />`: after the head comes a
      `title` attribute exactly when the title is neither null nor empty, then ` />`. */
  function ImageHtml(source: string, alt: Option<string>, width: int, height: int, title: Option<string>): (r: string)
    ensures var h := ImageHead(source, alt, width, height);
      |r| >= |h| + 3 && r[..|h|] == h && r[|r| - 3..] == " />"
      && (|r| > |h| + 3 <==> !IsNullOrEmpty(title))
      && (!IsNullOrEmpty(title) ==>
            |r| == |h| + |title.value| + 12 && r[|h|..|h| + 7] == "title=\"" && r[|h| + 7..|r| - 5] == title.value
            && r[|r| - 5..] == "\"  />")
  {
    ImageMarkup(ImageHead(source, alt, width, height), title)
  }

  /** The element closed after the head `h`, with the title attribute when there is a title. */
  function ImageMarkup(h: string, title: Option<string>): (r: string)
    ensures |r| >= |h| + 3 && r[..|h|] == h && r[|r| - 3..] == " />"
    ensures |r| > |h| + 3 <==> !IsNullOrEmpty(title)
    ensures !IsNullOrEmpty(title) ==>
      |r| == |h| + |title.value| + 12 && r[|h|..|h| + 7] == "title=\"" && r[|h| + 7..|r| - 5] == title.value
      && r[|r| - 5..] == "\"  />"
  {
    var titleAttribute := if !IsNullOrEmpty(title) then "title=\"" + title.value + "\" " else "";
    var r := h + titleAttribute + " />";
    assert r[..|h|] == h && r[|h|..|r| - 3] == titleAttribute;
    r
  }

  /** Two images that agree on everything but the title have the same markup exactly when
      both titles are absent (null or empty) or both are the same text. */
  lemma ImageTitleDecides(source: string, alt: Option<string>, width: int, height: int, t: Option<string>, t': Option<string>)
    ensures ImageHtml(source, alt, width, height, t) == ImageHtml(source, alt, width, height, t')
      <==> (IsNullOrEmpty(t) && IsNullOrEmpty(t')) || (!IsNullOrEmpty(t) && !IsNullOrEmpty(t') && t.value == t'.value)
  {
    var r, r' := ImageHtml(source, alt, width, height, t), ImageHtml(source, alt, width, height, t');
    var h := ImageHead(source, alt, width, height);
    if r == r' && !IsNullOrEmpty(t) && !IsNullOrEmpty(t') {
      assert t.value == r[|h| + 7..|r| - 5] == t'.value;
    }
  }

  /** `(rate / 100) * size`: `size` scaled by `rate` percent. */
  function Scaled(rate: real, size: int): real
  {
    rate / 100.0 * size as real
  }

  class ImageObject {
    var width: Int32
    var originalWidth: Int32
    var height: Int32
    var originalHeight: Int32
    var source: Option<string>
    var altText: Option<string>
    var titleText: Option<string>
    var embedded: bool
    var resizeRate: real

    var errors: map<string, string>
    var isValid: bool

    /** A new image is embedded; every other field has its default. */
    constructor()
      ensures embedded && width == 0 && originalWidth == 0 && height == 0 && originalHeight == 0
      ensures source == None && altText == None && titleText == None && resizeRate == 0.0
      ensures errors == map[] && !isValid
    {
      width, originalWidth, height, originalHeight := 0, 0, 0, 0;
      source, altText, titleText := None, None, None;
      embedded := true;
      resizeRate := 0.0;
      errors, isValid := map[], false;
    }

    /** `OriginalWidth` also sets `Width`. */
    method SetOriginalWidth(v: Int32)
      modifies this
      ensures source == old(source) && altText == old(altText) && titleText == old(titleText) && embedded == old(embedded)
      ensures originalWidth == v && width == v
      ensures height == old(height) && originalHeight == old(originalHeight)
      ensures resizeRate == old(resizeRate) && isValid == old(isValid) && errors == old(errors)
    {
      originalWidth := v;
      width := v;
    }

    /** `OriginalHeight` also sets `Height`. */
    method SetOriginalHeight(v: Int32)
      modifies this
      ensures source == old(source) && altText == old(altText) && titleText == old(titleText) && embedded == old(embedded)
      ensures originalHeight == v && height == v
      ensures width == old(width) && originalWidth == old(originalWidth)
      ensures resizeRate == old(resizeRate) && isValid == old(isValid) && errors == old(errors)
    {
      originalHeight := v;
      height := v;
    }

    method SetWidth(v: Int32)
      modifies this
      ensures source == old(source) && altText == old(altText) && titleText == old(titleText) && embedded == old(embedded)
      ensures width == v && height == old(height)
      ensures originalWidth == old(originalWidth) && originalHeight == old(originalHeight)
      ensures resizeRate == old(resizeRate) && isValid == old(isValid) && errors == old(errors)
    {
      width := v;
    }

    method SetHeight(v: Int32)
      modifies this
      ensures source == old(source) && altText == old(altText) && titleText == old(titleText) && embedded == old(embedded)
      ensures height == v && width == old(width)
      ensures originalWidth == old(originalWidth) && originalHeight == old(originalHeight)
      ensures resizeRate == old(resizeRate) && isValid == old(isValid) && errors == old(errors)
    {
      height := v;
    }

    /** `ResizeRate`: the width and height become the original ones scaled by `rate` percent and
        rounded to the nearest whole number, ties to even. */
    method SetResizeRate(rate: real)
      requires -TwoTo31 as real <= Scaled(rate, originalWidth) <= (TwoTo31 - 1) as real
      requires -TwoTo31 as real <= Scaled(rate, originalHeight) <= (TwoTo31 - 1) as real
      modifies this
      ensures source == old(source) && altText == old(altText) && titleText == old(titleText) && embedded == old(embedded)
      ensures resizeRate == rate
      ensures width == RoundHalfEven(Scaled(rate, originalWidth))
      ensures height == RoundHalfEven(Scaled(rate, originalHeight))
      ensures originalWidth == old(originalWidth) && originalHeight == old(originalHeight)
      ensures isValid == old(isValid) && errors == old(errors)
    {
      var w := RoundHalfEven(Scaled(rate, originalWidth));
      var h := RoundHalfEven(Scaled(rate, originalHeight));
      resizeRate := rate;
      width := w;
      height := h;
    }

    method SetValidState()
      modifies this
      ensures source == old(source) && altText == old(altText) && titleText == old(titleText) && embedded == old(embedded)
      ensures resizeRate == old(resizeRate)
      ensures isValid && errors == old(errors)
      ensures width == old(width) && height == old(height)
      ensures originalWidth == old(originalWidth) && originalHeight == old(originalHeight)
    {
      isValid := true;
    }

    /** `SetInvalidState`: the original height is cleared (twice), and the zero resize rate
        clears the width and height; the original width is kept. */
    method SetInvalidState()
      modifies this
      ensures source == old(source) && altText == old(altText) && titleText == old(titleText) && embedded == old(embedded)
      ensures !isValid && originalHeight == 0 && width == 0 && height == 0 && resizeRate == 0.0
      ensures originalWidth == old(originalWidth) && errors == old(errors)
    {
      isValid := false;
      SetOriginalHeight(0);
      SetOriginalHeight(0);
      SetResizeRate(0.0);
    }

    /** The image model validates nothing: every column's error is null. */
    function ValidateProperty(name: string): (r: Option<string>)
      ensures IsNullOrEmpty(r)
    {
      None
    }

    method Item(column: string) returns (error: Option<string>)
      modifies this
      ensures source == old(source) && altText == old(altText) && titleText == old(titleText) && embedded == old(embedded)
      ensures resizeRate == old(resizeRate)
      ensures error == ValidateProperty(column)
      ensures errors == old(errors) - {column}
      ensures isValid <==> errors == map[]
      ensures width == old(width) && height == old(height)
      ensures originalWidth == old(originalWidth) && originalHeight == old(originalHeight)
    {
      error := ValidateProperty(column);
      errors := RecordValidation(errors, column, error);
      isValid := errors == map[];
    }

    function Error(): (r: Option<string>)
      reads this
      ensures r == ErrorMessage(isValid)
    {
      ErrorMessage(isValid)
    }

    /** `ToHtml`, given what `GetSource` produced for the image's source: the element of that
        source, the alternative text, the width and the height, with the title attribute
        exactly when there is a title. A linked image's `GetSource` is its source itself; an
        embedded image's is a data URI built from the image's bytes, which are read from disk or
        the network and are not part of this model. */
    function ToHtml(resolvedSource: string): (r: string)
      reads this
      requires !embedded ==> resolvedSource == Show(source)
      ensures var h := ImageHead(resolvedSource, altText, width, height);
        |r| >= |h| + 3 && r[..|h|] == h && r[|r| - 3..] == " />"
      ensures var h := ImageHead(resolvedSource, altText, width, height);
        IsNullOrEmpty(titleText) ==> |r| == |h| + 3
      ensures var h := ImageHead(resolvedSource, altText, width, height);
        !IsNullOrEmpty(titleText) ==>
          |r| == |h| + |titleText.value| + 12 && r[|h|..|h| + 7] == "title=\"" && r[|h| + 7..|r| - 5] == titleText.value
    {
      ImageHtml(resolvedSource, altText, width, height, titleText)
    }
  }

  /** `n` copies of `s` (none when `n` is not positive). */
  function Repeat(s: string, n: int): string
  {
    if n <= 0 then "" else Repeat(s, n - 1) + s
  }

  lemma {:induction false} RepeatLength(s: string, n: int)
    requires n >= 0
    ensures |Repeat(s, n)| == n * |s|
  {
    if n > 0 {
      RepeatLength(s, n - 1);
    }
  }

  /** `a + b` copies are `a` copies followed by `b` copies. */
  lemma {:induction false} RepeatAdd(s: string, a: nat, b: nat)
    ensures Repeat(s, a + b) == Repeat(s, a) + Repeat(s, b)
  {
    if b > 0 {
      RepeatAdd(s, a, b - 1);
      assert Repeat(s, a + b) == Repeat(s, a + b - 1) + s;
    }
  }

  /** Copy `k` of `n`: `k` copies, then `s`, then the rest. */
  lemma RepeatSplit(s: string, n: nat, k: nat)
    requires k < n
    ensures Repeat(s, n) == Repeat(s, k) + s + Repeat(s, n - k - 1)
  {
    var m := n - k - 1;
    RepeatAdd(s, k + 1, m);
    assert k + 1 + m == n;
    assert Repeat(s, k + 1) == Repeat(s, k) + s;
  }

  /** Regrouping a part placed between `a` and `c`. */
  lemma Regroup(a: string, d: string, e: string, f: string, c: string)
    ensures a + (d + e + f) + c == (a + d) + e + (f + c)
  {
  }

  /** Appending one more copy. */
  lemma AppendCopy(prefix: string, s: string, n: nat)
    ensures prefix + Repeat(s, n) + s == prefix + Repeat(s, n + 1)
  {
    assert Repeat(s, n + 1) == Repeat(s, n) + s;
  }

  lemma SliceOfConcat(a: string, b: string, c: string)
    ensures (a + b + c)[|a|..|a| + |b|] == b
  {
  }

  const Cell: string := "<td></td>"

  /** One table row: `<tr>`, `columns` empty cells, `</tr>`. */
  function RowHtml(columns: int): string
  {
    "<tr>" + Repeat(Cell, columns) + "</tr>"
  }

  /** Closing a row that was written tag by tag. */
  lemma CloseRow(done: string, cells: string)
    ensures done + "<tr>" + cells + "</tr>" == done + ("<tr>" + cells + "</tr>")
  {
  }

  /** The opening tag with its width attribute. */
  function TableOpen(width: int, widthUnit: Option<string>): string
  {
    "<table width=\"" + IntToString(width) + Show(widthUnit) + "\">"
  }

  /** The markup `TableObject.ToHtml` produces. */
  function TableHtml(rows: int, columns: int, width: int, widthUnit: Option<string>): string
  {
    TableOpen(width, widthUnit) + Repeat(RowHtml(columns), rows) + "</table>"
  }

  /** The table's size: the opening tag, `rows` rows of `9 + 9 * columns` characters, and the
      closing tag. */
  lemma TableLength(rows: nat, columns: nat, width: int, widthUnit: Option<string>)
    ensures |TableHtml(rows, columns, width, widthUnit)|
      == |TableOpen(width, widthUnit)| + rows * (9 + 9 * columns) + 8
  {
    RepeatLength(Cell, columns);
    RepeatLength(RowHtml(columns), rows);
  }

  /** In `rows` rows of `lead`, `columns` copies of `cell` and `trail`, between `open` and
      `close`, cell `j` of row `i` follows `i` rows, `lead` and `j` cells. */
  lemma GridCell(open: string, lead: string, cell: string, trail: string, close: string,
                 rows: nat, columns: nat, i: nat, j: nat, row: string, html: string)
    requires i < rows && j < columns
    requires row == lead + Repeat(cell, columns) + trail
    requires html == open + Repeat(row, rows) + close
    ensures var offset := |open| + i * |row| + |lead| + j * |cell|;
      offset + |cell| <= |html| && html[offset..offset + |cell|] == cell
  {
    var cells := Repeat(cell, columns);
    var body := Repeat(row, rows);
    var cb, ca := Repeat(cell, j), Repeat(cell, columns - j - 1);
    var rb, ra := Repeat(row, i), Repeat(row, rows - i - 1);
    RepeatSplit(cell, columns, j);
    RepeatSplit(row, rows, i);
    RepeatLength(cell, j);
    RepeatLength(row, i);
    Regroup(lead, cb, cell, ca, trail);
    var rowHead, rowTail := lead + cb, ca + trail;
    assert row == rowHead + cell + rowTail;
    Regroup(rb, rowHead, cell, rowTail, ra);
    var bodyHead, bodyTail := rb + rowHead, rowTail + ra;
    assert body == bodyHead + cell + bodyTail;
    Regroup(open, bodyHead, cell, bodyTail, close);
    var head := open + bodyHead;
    assert html == head + cell + (bodyTail + close);
    SliceOfConcat(head, cell, bodyTail + close);
  }

  /** Cell `j` of row `i` is an empty `<td></td>` at its fixed offset: the table holds
      `rows * columns` cells. */
  lemma TableCell(rows: nat, columns: nat, width: int, widthUnit: Option<string>, i: nat, j: nat)
    requires i < rows && j < columns
    ensures var offset := |TableOpen(width, widthUnit)| + i * (9 + 9 * columns) + 4 + 9 * j;
      offset + 9 <= |TableHtml(rows, columns, width, widthUnit)|
      && TableHtml(rows, columns, width, widthUnit)[offset..offset + 9] == Cell
  {
    var row := RowHtml(columns);
    assert |row| == 9 + 9 * columns by {
      RepeatLength(Cell, columns);
    }
    GridCell(TableOpen(width, widthUnit), "<tr>", Cell, "</tr>", "</table>", rows, columns, i, j,
             row, TableHtml(rows, columns, width, widthUnit));
  }

  lemma DefaultOpen()
    ensures TableOpen(100, Some("%")) == "<table width=\"100%\">"
  {
    assert NatToString(1) == "1";
    assert NatToString(10) == "10";
  }

  /** The default table: two rows of two cells, 100% wide. */
  lemma DefaultTableHtml()
    ensures TableHtml(2, 2, 100, Some("%"))
      == TableOpen(100, Some("%")) + RowHtml(2) + RowHtml(2) + "</table>"
    ensures TableOpen(100, Some("%")) == "<table width=\"100%\">"
    ensures RowHtml(2) == "<tr>" + Cell + Cell + "</tr>"
  {
    var row := RowHtml(2);
    assert Repeat(row, 1) == row;
    assert Repeat(Cell, 1) == Cell;
    DefaultOpen();
  }

  class TableObject {
    var rows: Int32
    var columns: Int32
    var width: Int32
    var widthUnit: Option<string>

    var errors: map<string, string>
    var isValid: bool

    /** Two rows, two columns, 100% wide. */
    constructor()
      ensures rows == 2 && columns == 2 && width == 100 && widthUnit == Some("%")
      ensures errors == map[] && !isValid
    {
      rows, columns, width, widthUnit := 2, 2, 100, Some("%");
      errors, isValid := map[], false;
    }

    /** `ToHtml`: the opening tag, then per row `<tr>`, one `<td></td>` per column and `</tr>`,
        then `</table>`. */
    method ToHtml() returns (html: string)
      ensures html == TableHtml(rows, columns, width, widthUnit)
    {
      var r := rows;
      var c := columns;
      html := TableOpen(width, widthUnit);
      var i := 0;
      ghost var open := html;
      while i < r
        invariant 0 <= i && (i <= r || i == 0)
        invariant html == open + Repeat(RowHtml(c), i)
      {
        ghost var done := html;
        html := html + "<tr>";
        ghost var rowStart := html;
        var j := 0;
        while j < c
          invariant 0 <= j && (j <= c || j == 0)
          invariant html == rowStart + Repeat(Cell, j)
        {
          AppendCopy(rowStart, Cell, j);
          html := html + Cell;
          j := j + 1;
        }
        assert Repeat(Cell, j) == Repeat(Cell, c);
        CloseRow(done, Repeat(Cell, c));
        html := html + "</tr>";
        AppendCopy(open, RowHtml(c), i);
        i := i + 1;
      }
      assert Repeat(RowHtml(c), i) == Repeat(RowHtml(c), r);
      html := html + "</table>";
    }

    /** The table model validates nothing. */
    function ValidateProperty(name: string): (r: Option<string>)
      ensures IsNullOrEmpty(r)
    {
      None
    }

    method Item(column: string) returns (error: Option<string>)
      modifies this
      ensures error == ValidateProperty(column)
      ensures errors == old(errors) - {column}
      ensures isValid <==> errors == map[]
      ensures rows == old(rows) && columns == old(columns)
      ensures width == old(width) && widthUnit == old(widthUnit)
    {
      error := ValidateProperty(column);
      errors := RecordValidation(errors, column, error);
      isValid := errors == map[];
    }

    function Error(): (r: Option<string>)
      reads this
      ensures r == ErrorMessage(isValid)
    {
      ErrorMessage(isValid)
    }
  }
}
