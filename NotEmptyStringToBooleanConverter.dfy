/** The converter that tells whether a value's text is not blank, or with `IsReversed` whether
    it is. A non-null value is given by the text its `ToString` returns. */
module NotEmptyStringToBooleanConverter {
  import opened Common
  import opened Text

  /** Every character of `s` is white space (vacuously so for the empty string). */
  predicate AllWhiteSpace(s: string)
  {
    forall i :: 0 <= i < |s| ==> IsWhiteSpace(s[i])
  }

  /** The private `IsNullOrWhiteSpace`: null and empty are blank; otherwise the characters are
      scanned and the first one that is not white space ends the scan. */
  method IsNullOrWhiteSpace(s: Option<string>) returns (blank: bool)
    ensures blank <==> s.None? || AllWhiteSpace(s.value)
    ensures s.Some? && |s.value| > 0 && !IsWhiteSpace(s.value[0]) ==> !blank
  {
    if IsNullOrEmpty(s) {
      return true;
    }
    var t := s.value;
    var i := 0;
    while i < |t|
      invariant 0 <= i <= |t|
      invariant forall j :: 0 <= j < i ==> IsWhiteSpace(t[j])
    {
      if !IsWhiteSpace(t[i]) {
        return false;
      }
      i := i + 1;
    }
    return true;
  }

  /** What `Convert` returns: `IsReversed` for null; otherwise whether the text is not blank,
      negated by `IsReversed`. */
  function ConvertResult(isReversed: bool, value: Option<string>): bool
  {
    if value.None? then isReversed
    else if isReversed then AllWhiteSpace(value.value) else !AllWhiteSpace(value.value)
  }

  /** `Convert`; `value` is null or the text of the value's `ToString`. */
  method Convert(isReversed: bool, value: Option<string>) returns (r: bool)
    ensures r == ConvertResult(isReversed, value)
    ensures value.None? ==> r == isReversed
  {
    if value.Some? {
      var blank := IsNullOrWhiteSpace(value);
      return if isReversed then blank else !blank;
    }
    return isReversed;
  }

  /** Without `IsReversed` the result is true exactly for text with a character that is not
      white space. */
  lemma ConvertMeansNotBlank(value: Option<string>)
    ensures ConvertResult(false, value) <==> value.Some? && exists i :: 0 <= i < |value.value| && !IsWhiteSpace(value.value[i])
  {
  }

  /** Flipping `IsReversed` negates the result, for null as well. */
  lemma ReversedNegates(isReversed: bool, value: Option<string>)
    ensures ConvertResult(!isReversed, value) == !ConvertResult(isReversed, value)
  {
  }

  /** The examples of the converter's tests. */
  lemma ConvertExamples()
    ensures ConvertResult(false, Some("Some text"))
    ensures !ConvertResult(false, Some(""))
    ensures !ConvertResult(false, Some(" \t  "))
    ensures !ConvertResult(false, None)
    ensures ConvertResult(true, Some(""))
    ensures !ConvertResult(true, Some("Universe"))
  {
    assert !IsWhiteSpace("Some text"[0]);
    assert !IsWhiteSpace("Universe"[0]);
  }
}
