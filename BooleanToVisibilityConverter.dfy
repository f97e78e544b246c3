/** The converter from a boolean to a `Visibility`: true shows, anything else collapses or,
    with `UseHidden`, hides. */
module BooleanToVisibilityConverter {
  import opened Common
  import opened BoxedValues

  /** `Convert`. A boxed `bool?` with a value is a boxed `bool`; one without is null. */
  function Convert(useHidden: bool, value: Boxed): (v: Visibility)
    ensures v == Visible <==> value == BoolBox(true)
    ensures v != Visible ==> v == (if useHidden then Hidden else Collapsed)
  {
    var flag := if value.BoolBox? then value.b else false;
    if flag then Visible else if useHidden then Hidden else Collapsed
  }

  /** `ConvertBack`: null stays null; otherwise the value is unboxed as a `Visibility`. As its
      underlying type is `byte`, that also accepts a boxed `byte` and a boxed byte-backed
      enumeration of another type, read by their number (`Visible` is 0), and throws for
      anything else, a boxed `int` included. */
  function ConvertBack(value: Boxed): (r: Result<Option<bool>, Fault>)
    ensures value == Null ==> r == Ok(None)
    ensures value.VisibilityBox? ==> r == Ok(Some(value.v == Visible))
    ensures value.ByteBox? ==> r == Ok(Some(value.u == 0))
    ensures value.EnumBox? && value.underlying == ByteBacked ==> r == Ok(Some(value.ordinal == 0))
    ensures r.Err? <==> !(value.Null? || value.VisibilityBox? || value.ByteBox?
                          || (value.EnumBox? && value.underlying == ByteBacked))
    ensures r.Err? ==> r.error == InvalidCast
  {
    match value
    case Null => Ok(None)
    case VisibilityBox(v) => Ok(Some(v == Visible))
    case ByteBox(b) => Ok(Some(b == 0))
    case EnumBox(_, ByteBacked, n) => Ok(Some(n == 0))
    case _ => Err(InvalidCast)
  }

  /** Converting a boolean and back gives it again, hidden or collapsed. */
  lemma ConvertBackConvert(useHidden: bool, b: bool)
    ensures ConvertBack(VisibilityBox(Convert(useHidden, BoolBox(b)))) == Ok(Some(b))
  {
  }

  /** Converting back and forth again gives the visibility again, when it is one `Convert`
      can produce. */
  lemma ConvertConvertBack(useHidden: bool, v: Visibility)
    requires v == Visible || v == (if useHidden then Hidden else Collapsed)
    ensures Convert(useHidden, BoolBox(ConvertBack(VisibilityBox(v)).value.value)) == v
  {
  }

  class BooleanToVisibilityConverter {
    var useHidden: bool

    constructor(useHidden: bool)
      ensures this.useHidden == useHidden
    {
      this.useHidden := useHidden;
    }

    /** `ProvideValue`: a new converter with the same `UseHidden`, which converts the same. */
    method ProvideValue() returns (c: BooleanToVisibilityConverter)
      ensures fresh(c) && c.useHidden == useHidden
      ensures forall value :: Convert(c.useHidden, value) == Convert(useHidden, value)
    {
      c := new BooleanToVisibilityConverter(useHidden);
    }
  }
}
