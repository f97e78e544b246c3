/** The converter that tells whether a value is not null, or with `IsReversed` whether it is. */
module IsNotNullToBooleanConverter {
  import opened BoxedValues

  /** `Convert`. */
  function Convert(isReversed: bool, value: Boxed): (r: bool)
    ensures !isReversed ==> (r <==> value != Null)
    ensures isReversed ==> (r <==> value == Null)
  {
    if isReversed then value == Null else value != Null
  }

  /** Flipping `IsReversed` negates the result. */
  lemma ReversedNegates(isReversed: bool, value: Boxed)
    ensures Convert(!isReversed, value) == !Convert(isReversed, value)
  {
  }

  /** The examples of the converter's tests. */
  lemma ConvertExamples()
    ensures Convert(false, IntBox(5)) && !Convert(false, Null)
    ensures Convert(true, Null) && !Convert(true, IntBox(5))
  {
  }
}
