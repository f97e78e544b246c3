/** The converter from a width unit to the largest width the unit allows. */
module WidthUnitToMaxWidthConverter {
  import opened Common
  import opened BoxedValues

  const PercentMaxWidth: int := 100
  const PixelMaxWidth: int := 999999

  /** `Convert`: null, or a unit other than `%` and `px`, gives null; a value that is not a
      string cannot be cast and throws. */
  function Convert(value: Boxed): (r: Result<Option<int>, Fault>)
    ensures r == Ok(Some(PercentMaxWidth)) <==> value == StringBox("%")
    ensures r == Ok(Some(PixelMaxWidth)) <==> value == StringBox("px")
    ensures r == Ok(None) <==> value == Null || (value.StringBox? && value.s != "%" && value.s != "px")
    ensures r.Err? <==> !(value.Null? || value.StringBox?)
    ensures r.Err? ==> r.error == InvalidCast
  {
    match value
    case Null => Ok(None)
    case StringBox(unit) =>
      if unit == "%" then Ok(Some(PercentMaxWidth))
      else if unit == "px" then Ok(Some(PixelMaxWidth))
      else Ok(None)
    case _ => Err(InvalidCast)
  }
}
