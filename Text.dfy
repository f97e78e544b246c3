/** The .NET string and character operations the core relies on. */
module Text {
  import opened Common

  /** `Char.IsWhiteSpace`: the Unicode space separators, line and paragraph separators, and the
      control characters U+0009 to U+000D and U+0085. */
  predicate IsWhiteSpace(c: char)
  {
    ('\U{0009}' <= c <= '\U{000D}') || c == '\U{0020}' || c == '\U{0085}' || c == '\U{00A0}'
    || c == '\U{1680}' || ('\U{2000}' <= c <= '\U{200A}') || c == '\U{2028}' || c == '\U{2029}'
    || c == '\U{202F}' || c == '\U{205F}' || c == '\U{3000}'
  }

  predicate IsUpperAscii(c: char) { 'A' <= c <= 'Z' }
  predicate IsLowerAscii(c: char) { 'a' <= c <= 'z' }
  predicate IsDigit(c: char) { '0' <= c <= '9' }

  /** `String.IsNullOrEmpty`. */
  predicate IsNullOrEmpty(s: Option<string>)
  {
    s.None? || s.value == ""
  }

  /** A `string` rendered the way `String.Format` renders it: `null` becomes the empty string. */
  function Show(s: Option<string>): string
  {
    if s.None? then "" else s.value
  }

  /** The index of the first character at or after `i` that is not white space (`|s|` when
      there is none). */
  function TrimStartIndex(s: string, i: nat): (k: nat)
    requires i <= |s|
    ensures i <= k <= |s|
    ensures k < |s| ==> !IsWhiteSpace(s[k])
    decreases |s| - i
  {
    if i < |s| && IsWhiteSpace(s[i]) then TrimStartIndex(s, i + 1) else i
  }

  /** The end of `s[lo..j]` once its trailing white space is dropped. */
  function TrimEndIndex(s: string, lo: nat, j: nat): (k: nat)
    requires lo <= j <= |s|
    ensures lo <= k <= j
    ensures k > lo ==> !IsWhiteSpace(s[k - 1])
  {
    if j > lo && IsWhiteSpace(s[j - 1]) then TrimEndIndex(s, lo, j - 1) else j
  }

  /** `String.TrimStart()`: drops the leading white space. */
  function TrimStart(s: string): (r: string)
    ensures r == [] || !IsWhiteSpace(r[0])
  {
    s[TrimStartIndex(s, 0)..]
  }

  /** `String.TrimEnd()`: drops the trailing white space. */
  function TrimEnd(s: string): (r: string)
    ensures r == [] || !IsWhiteSpace(r[|r| - 1])
  {
    s[..TrimEndIndex(s, 0, |s|)]
  }

  /** `String.Trim()`: the input without its leading and trailing white space. */
  function Trim(s: string): (r: string)
    ensures |r| <= |s|
    ensures r == [] || (!IsWhiteSpace(r[0]) && !IsWhiteSpace(r[|r| - 1]))
  {
    var start := TrimStartIndex(s, 0);
    s[start..TrimEndIndex(s, start, |s|)]
  }

  /** Only white space is skipped at the start. */
  lemma {:induction false} TrimStartIndexSkips(s: string, i: nat)
    requires i <= |s|
    ensures forall m :: i <= m < TrimStartIndex(s, i) ==> IsWhiteSpace(s[m])
    decreases |s| - i
  {
    if i < |s| && IsWhiteSpace(s[i]) {
      TrimStartIndexSkips(s, i + 1);
    }
  }

  /** Only white space is skipped at the end. */
  lemma {:induction false} TrimEndIndexSkips(s: string, lo: nat, j: nat)
    requires lo <= j <= |s|
    ensures forall m :: TrimEndIndex(s, lo, j) <= m < j ==> IsWhiteSpace(s[m])
  {
    if j > lo && IsWhiteSpace(s[j - 1]) {
      TrimEndIndexSkips(s, lo, j - 1);
    }
  }

  /** `Trim` keeps a contiguous part of its input and removes only white space around it. */
  lemma TrimMargins(s: string)
    ensures var start := TrimStartIndex(s, 0);
      var end := TrimEndIndex(s, start, |s|);
      Trim(s) == s[start..end]
      && (forall i :: 0 <= i < start ==> IsWhiteSpace(s[i]))
      && (forall i :: end <= i < |s| ==> IsWhiteSpace(s[i]))
  {
    var start := TrimStartIndex(s, 0);
    TrimStartIndexSkips(s, 0);
    TrimEndIndexSkips(s, start, |s|);
  }

  /** A string that neither starts nor ends with white space is its own trimmed form. */
  lemma TrimNoMargins(s: string)
    requires s == [] || (!IsWhiteSpace(s[0]) && !IsWhiteSpace(s[|s| - 1]))
    ensures Trim(s) == s
  {
    assert TrimStartIndex(s, 0) == 0;
  }

  /** Trimming twice trims nothing more. */
  lemma TrimIdempotent(s: string)
    ensures Trim(Trim(s)) == Trim(s)
  {
    TrimNoMargins(Trim(s));
  }

  /** A string is the concatenation of its three parts cut at `i` and `j`. */
  lemma SplitThree(s: string, i: nat, j: nat)
    requires i <= j <= |s|
    ensures s == s[..i] + s[i..j] + s[j..]
  {
    assert s[i..] == s[i..j] + s[j..];
  }

  /** Ordinal `String.Contains`. */
  predicate Contains(s: string, t: string)
  {
    t <= s || (s != [] && Contains(s[1..], t))
  }

  /** `String.Replace(" ", "")`. */
  function RemoveSpaces(s: string): (r: string)
    ensures |r| <= |s|
    ensures forall i :: 0 <= i < |r| ==> r[i] != ' '
  {
    if s == [] then []
    else (if s[0] == ' ' then [] else [s[0]]) + RemoveSpaces(s[1..])
  }

  lemma RemoveSpacesAppend(a: string, b: string)
    ensures RemoveSpaces(a + b) == RemoveSpaces(a) + RemoveSpaces(b)
  {
    if a == [] {
      assert a + b == b;
    } else {
      assert (a + b)[1..] == a[1..] + b;
      RemoveSpacesAppend(a[1..], b);
    }
  }

  /** `Char.ToUpper` on the ASCII letters; every other character is kept. */
  function ToUpperAscii(c: char): (u: char)
    ensures IsLowerAscii(c) ==> u == (c as int - 32) as char
    ensures !IsLowerAscii(c) ==> u == c
  {
    if IsLowerAscii(c) then (c as int - 32) as char else c
  }

  function ToUpper(s: string): (r: string)
    ensures |r| == |s|
    ensures forall i :: 0 <= i < |s| ==> r[i] == ToUpperAscii(s[i])
  {
    if s == [] then [] else [ToUpperAscii(s[0])] + ToUpper(s[1..])
  }

  /** Decimal digits of a natural number, most significant first. */
  function NatToString(n: nat): (r: string)
    ensures |r| >= 1
    ensures forall i :: 0 <= i < |r| ==> IsDigit(r[i])
  {
    if n < 10 then [('0' as int + n) as char]
    else NatToString(n / 10) + [('0' as int + n % 10) as char]
  }

  /** `Int32.ToString()` with a '-' negative sign. */
  function IntToString(n: int): (r: string)
    ensures |r| >= 1
    ensures (r[0] == '-') <==> n < 0
  {
    if n < 0 then "-" + NatToString(-n) else NatToString(n)
  }
}
