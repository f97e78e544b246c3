/** The converter that turns camel-case text into words: the text is trimmed, and a space goes
    before each capital letter that starts a word. */
module CamelTextToRegularTextConverter {
  import opened Common
  import opened Text

  /** Whether the replacement `(?<!^)([A-Z][a-z]|(?<=[a-z])[A-Z])` puts a space before `s[i]`:
      not at the start, an ASCII capital, followed or preceded by an ASCII small letter. Every
      match starts at such a capital, and the two-letter form only ever swallows a small letter,
      so the matches are exactly these positions. */
  predicate SplitsAt(s: string, i: int)
  {
    0 < i < |s| && IsUpperAscii(s[i]) && ((i + 1 < |s| && IsLowerAscii(s[i + 1])) || IsLowerAscii(s[i - 1]))
  }

  /** The number of positions in `[i, j)` that get a space. */
  function SplitCount(s: string, i: nat, j: nat): nat
    decreases j - i
  {
    if i >= j then 0 else (if SplitsAt(s, i) then 1 else 0) + SplitCount(s, i + 1, j)
  }

  /** `s[i..]` with a space before each split position. */
  function SpaceFrom(s: string, i: nat): string
    requires i <= |s|
    decreases |s| - i
  {
    if i == |s| then ""
    else (if SplitsAt(s, i) then [' ', s[i]] else [s[i]]) + SpaceFrom(s, i + 1)
  }

  /** Where `s[k]` lands in `SpaceFrom(s, i)`: after the `k - i` characters before it and the
      spaces inserted up to and including its own. */
  function Offset(s: string, i: nat, k: nat): int
  {
    (k - i) + SplitCount(s, i, k + 1)
  }

  lemma {:induction false} SplitCountSnoc(s: string, i: nat, j: nat)
    requires i <= j
    ensures SplitCount(s, i, j + 1) == SplitCount(s, i, j) + (if SplitsAt(s, j) then 1 else 0)
    decreases j - i
  {
    if i < j {
      SplitCountSnoc(s, i + 1, j);
    }
  }

  /** The layout of `SpaceFrom(s, i)`: its length is the input's plus the inserted spaces;
      each input character appears at its offset, the offsets of neighbours are one apart
      unless a space was inserted between them, and that space is there. */
  lemma {:induction false} SpaceFromLayout(s: string, i: nat)
    requires i <= |s|
    ensures |SpaceFrom(s, i)| == |s| - i + SplitCount(s, i, |s|)
    ensures forall k :: i <= k < |s| ==>
      0 <= Offset(s, i, k) < |SpaceFrom(s, i)| && SpaceFrom(s, i)[Offset(s, i, k)] == s[k]
    ensures forall k :: i <= k < |s| && SplitsAt(s, k) ==>
      Offset(s, i, k) >= 1 && SpaceFrom(s, i)[Offset(s, i, k) - 1] == ' '
    decreases |s| - i
  {
    if i < |s| {
      SpaceFromLayout(s, i + 1);
      var p: string := if SplitsAt(s, i) then [' ', s[i]] else [s[i]];
      var rest := SpaceFrom(s, i + 1);
      assert SpaceFrom(s, i) == p + rest;
      forall k | i <= k < |s|
        ensures 0 <= Offset(s, i, k) < |SpaceFrom(s, i)| && SpaceFrom(s, i)[Offset(s, i, k)] == s[k]
        ensures SplitsAt(s, k) ==> Offset(s, i, k) >= 1 && SpaceFrom(s, i)[Offset(s, i, k) - 1] == ' '
      {
        if k > i {
          assert Offset(s, i, k) == |p| + Offset(s, i + 1, k);
          if SplitsAt(s, k) {
            SplitCountSnoc(s, i + 1, k);
          }
        }
      }
    }
  }

  /** Consecutive input characters: one apart in the output, or two with a space between. */
  lemma OffsetStep(s: string, i: nat, k: nat)
    requires i <= k
    ensures Offset(s, i, k + 1) == Offset(s, i, k) + 1 + (if SplitsAt(s, k + 1) then 1 else 0)
  {
    SplitCountSnoc(s, i, k + 1);
  }

  /** `Convert`: null stays null; text is trimmed and gets its spaces. */
  function Convert(value: Option<string>): (r: Option<string>)
    ensures r.None? <==> value.None?
    ensures r.Some? ==> |r.value| >= |Trim(value.value)|
    ensures r.Some? && |Trim(value.value)| > 0 ==>
      |r.value| > 0 && r.value[0] == Trim(value.value)[0] && !IsWhiteSpace(r.value[0])
  {
    if value.None? then None
    else
      var t := Trim(value.value);
      SpaceFromLayout(t, 0);
      assert SplitCount(t, 1, 1) == 0 && SplitCount(t, 0, 1) == 0;
      Some(SpaceFrom(t, 0))
  }

  /** The whole promise of `Convert` on text: the trimmed text's characters appear in order at
      their offsets, the first at 0 and the last at the end; neighbours are one apart unless a
      space was inserted between them, and that space is there. So the output is the trimmed
      text with one space before each split position and nothing else, and dropping those spaces
      gives the trimmed text back. */
  lemma ConvertLayout(text: string)
    ensures var t := Trim(text);
      var r := Convert(Some(text)).value;
      |r| == |t| + SplitCount(t, 0, |t|)
      && (forall k :: 0 <= k < |t| ==> 0 <= Offset(t, 0, k) < |r| && r[Offset(t, 0, k)] == t[k])
      && (|t| > 0 ==> Offset(t, 0, 0) == 0 && Offset(t, 0, |t| - 1) == |r| - 1)
      && (forall k :: 0 <= k < |t| - 1 ==>
        Offset(t, 0, k + 1) == Offset(t, 0, k) + 1 + (if SplitsAt(t, k + 1) then 1 else 0))
      && (forall k :: 0 <= k < |t| && SplitsAt(t, k) ==> Offset(t, 0, k) >= 1 && r[Offset(t, 0, k) - 1] == ' ')
  {
    var t := Trim(text);
    SpaceFromLayout(t, 0);
    assert SplitCount(t, 1, 1) == 0 && SplitCount(t, 0, 1) == 0;
    forall k | 0 <= k < |t| - 1
      ensures Offset(t, 0, k + 1) == Offset(t, 0, k) + 1 + (if SplitsAt(t, k + 1) then 1 else 0)
    {
      OffsetStep(t, 0, k);
    }
  }

  /** The examples of the converter's tests. */
  lemma ConvertSomeText()
    ensures Convert(Some("SomeText")) == Some("Some Text")
  {
    var s := "SomeText";
    TrimNoMargins(s);
    assert SpaceFrom(s, 8) == "";
    assert SpaceFrom(s, 7) == "t";
    assert SpaceFrom(s, 6) == "xt";
    assert SpaceFrom(s, 5) == "ext";
    assert SpaceFrom(s, 4) == " Text";
    assert SpaceFrom(s, 3) == "e Text";
    assert SpaceFrom(s, 2) == "me Text";
    assert SpaceFrom(s, 1) == "ome Text";
    assert SpaceFrom(s, 0) == "Some Text";
  }

  /** Capitals next to capitals or digits start no word. */
  lemma ConvertAcronymAndDigits()
    ensures Convert(Some("IBM")) == Some("IBM")
    ensures Convert(Some("P346Sid")) == Some("P346 Sid")
  {
    var s := "IBM";
    TrimNoMargins(s);
    assert SpaceFrom(s, 3) == "";
    assert SpaceFrom(s, 2) == "M";
    assert SpaceFrom(s, 1) == "BM";
    assert SpaceFrom(s, 0) == "IBM";
    var p := "P346Sid";
    TrimNoMargins(p);
    assert SpaceFrom(p, 7) == "";
    assert SpaceFrom(p, 6) == "d";
    assert SpaceFrom(p, 5) == "id";
    assert SpaceFrom(p, 4) == " Sid";
    assert SpaceFrom(p, 3) == "6 Sid";
    assert SpaceFrom(p, 2) == "46 Sid";
    assert SpaceFrom(p, 1) == "346 Sid";
    assert SpaceFrom(p, 0) == "P346 Sid";
  }

  /** A run of capitals is one word, and the capital that starts the next word is split off. */
  lemma ConvertCapitalRun()
    ensures Convert(Some("WCFIn")) == Some("WCF In")
  {
    var s := "WCFIn";
    TrimNoMargins(s);
    assert SpaceFrom(s, 5) == "";
    assert SpaceFrom(s, 4) == "n";
    assert SpaceFrom(s, 3) == " In";
    assert SpaceFrom(s, 2) == "F In";
    assert SpaceFrom(s, 1) == "CF In";
    assert SpaceFrom(s, 0) == "WCF In";
  }

  /** Converting twice is not converting once: a capital after an inserted space still starts
      a word, and gets a second space. */
  lemma ConvertNotIdempotent()
    ensures Convert(Some("Some Text")) == Some("Some  Text")
  {
    var s := "Some Text";
    TrimNoMargins(s);
    assert SpaceFrom(s, 9) == "";
    assert SpaceFrom(s, 8) == "t";
    assert SpaceFrom(s, 7) == "xt";
    assert SpaceFrom(s, 6) == "ext";
    assert SpaceFrom(s, 5) == " Text";
    assert SpaceFrom(s, 4) == "  Text";
    assert SpaceFrom(s, 3) == "e  Text";
    assert SpaceFrom(s, 2) == "me  Text";
    assert SpaceFrom(s, 1) == "ome  Text";
    assert SpaceFrom(s, 0) == "Some  Text";
  }
}
