/** The converter between `int` and `decimal`. Decimals are modelled as exact reals. */
module Int32ToDecimalConverter {
  import opened Common
  import opened BoxedValues

  /** The integer part of `d`, rounded toward zero, as an explicit `decimal` to `int` cast does. */
  function TruncateTowardZero(d: real): (t: int)
    ensures d >= 0.0 ==> t as real <= d < t as real + 1.0
    ensures d < 0.0 ==> t as real - 1.0 < d <= t as real
  {
    if d >= 0.0 then d.Floor else -((-d).Floor)
  }

  /** `Convert`: the value is unboxed as an `int`, which also accepts a boxed enumeration value
      whose underlying type is `int`, read by its number; it throws for null and for any other
      type. */
  function Convert(value: Boxed): (r: Result<Boxed, Fault>)
    ensures value.IntBox? ==> r == Ok(DecimalBox(value.i as real))
    ensures value.EnumBox? && value.underlying == IntBacked ==> r == Ok(DecimalBox(value.ordinal as real))
    ensures value == Null ==> r == Err(NullReference)
    ensures !(value.IntBox? || (value.EnumBox? && value.underlying == IntBacked) || value.Null?) ==>
      r == Err(InvalidCast)
  {
    match value
    case IntBox(n) => Ok(DecimalBox(n as real))
    case EnumBox(_, IntBacked, n) => Ok(DecimalBox(n as real))
    case Null => Err(NullReference)
    case _ => Err(InvalidCast)
  }

  /** `ConvertBack`: the decimal is unboxed, truncated toward zero, and throws an overflow when
      the result is not an `int`. */
  function ConvertBack(value: Boxed): (r: Result<Boxed, Fault>)
    ensures value.DecimalBox? && r.Ok? ==>
      r.value.IntBox? && r.value.i == TruncateTowardZero(value.d)
    ensures value.DecimalBox? ==>
      (r.Err? <==> !(IntMinValue <= TruncateTowardZero(value.d) <= IntMaxValue))
    ensures value.DecimalBox? && r.Err? ==> r.error == Overflow
    ensures value == Null ==> r == Err(NullReference)
    ensures !(value.DecimalBox? || value.Null?) ==> r == Err(InvalidCast)
  {
    match value
    case DecimalBox(d) =>
      var t := TruncateTowardZero(d);
      if IntMinValue <= t <= IntMaxValue then Ok(IntBox(t)) else Err(Overflow)
    case Null => Err(NullReference)
    case _ => Err(InvalidCast)
  }

  /** Every `int` survives the round trip. */
  lemma ConvertBackConvert(n: Int32)
    ensures Convert(IntBox(n)).Ok?
    ensures ConvertBack(Convert(IntBox(n)).value) == Ok(IntBox(n))
  {
  }

  /** An int-backed enumeration value comes back as its number, boxed as an `int`. */
  lemma ConvertBackConvertEnum(enumType: string, n: Int32)
    ensures Convert(EnumBox(enumType, IntBacked, n)).Ok?
    ensures ConvertBack(Convert(EnumBox(enumType, IntBacked, n)).value) == Ok(IntBox(n))
  {
    assert Convert(EnumBox(enumType, IntBacked, n)) == Ok(DecimalBox(n as real));
    assert TruncateTowardZero(n as real) == n;
  }

  /** The fraction is dropped toward zero, on both sides of zero. */
  lemma ConvertBackTruncates()
    ensures ConvertBack(DecimalBox(346.0)) == Ok(IntBox(346))
    ensures ConvertBack(DecimalBox(2.7)) == Ok(IntBox(2))
    ensures ConvertBack(DecimalBox(-2.7)) == Ok(IntBox(-2))
    ensures ConvertBack(DecimalBox(2147483648.0)) == Err(Overflow)
  {
  }
}
