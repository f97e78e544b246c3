/** The converter that binds a radio-button-like boolean to one value of an enumeration: it is
    true when the value is the converter parameter, and setting it to true selects the
    parameter. */
module EnumToBooleanConverter {
  import opened Common
  import opened BoxedValues

  /** `Object.Equals` on boxed values: same type and same value. */
  predicate BoxEquals(x: Boxed, y: Boxed)
  {
    x == y
  }

  /** `Convert`: calling `Equals` on a null value throws. */
  function Convert(value: Boxed, parameter: Boxed): (r: Result<bool, Fault>)
    ensures r.Err? <==> value == Null
    ensures r.Err? ==> r.error == NullReference
    ensures r.Ok? ==> (r.value <==> BoxEquals(value, parameter))
  {
    if value == Null then Err(NullReference) else Ok(BoxEquals(value, parameter))
  }

  /** `ConvertBack`: true gives the parameter, any other value `Binding.DoNothing`. */
  function ConvertBack(value: Boxed, parameter: Boxed): (r: Result<Boxed, Fault>)
    ensures r.Err? <==> value == Null
    ensures r.Err? ==> r.error == NullReference
    ensures value == BoolBox(true) ==> r == Ok(parameter)
    ensures value != Null && value != BoolBox(true) ==> r == Ok(DoNothing)
  {
    if value == Null then Err(NullReference)
    else if BoxEquals(value, BoolBox(true)) then Ok(parameter)
    else Ok(DoNothing)
  }

  /** Setting the boolean to true and reading it back gives true, for any non-null parameter. */
  lemma ConvertConvertBack(parameter: Boxed)
    requires parameter != Null
    ensures ConvertBack(BoolBox(true), parameter).Ok?
    ensures Convert(ConvertBack(BoolBox(true), parameter).value, parameter) == Ok(true)
  {
  }

  /** A null parameter is passed back as is, and `Convert` then throws on it. */
  lemma ConvertBackNullParameter()
    ensures ConvertBack(BoolBox(true), Null) == Ok(Null)
    ensures Convert(Null, Null) == Err(NullReference)
  {
  }
}
