/** The `object` values the value converters receive and return: null, a boxed value of one of
    the types they look at, another object, or the `Binding.DoNothing` sentinel. */
module BoxedValues {
  import opened Common

  /** `System.Windows.Visibility`, an enumeration whose underlying type is `byte`. */
  datatype Visibility = Visible | Hidden | Collapsed

  /** The integral type underneath an enumeration, as far as unboxing tells them apart: the
      runtime unboxes a boxed enumeration value as any enumeration or integral type with the
      same underlying type, and refuses every other type. */
  datatype Underlying = ByteBacked | IntBacked | OtherBacked

  datatype Boxed =
    | Null
    | BoolBox(b: bool)
    | ByteBox(u: Byte)
    | IntBox(i: Int32)
    | DecimalBox(d: real)
    | StringBox(s: string)
    | VisibilityBox(v: Visibility)
    | EnumBox(enumType: string, underlying: Underlying, ordinal: int)
    | ObjectBox(id: nat)
    | DoNothing

  /** The exceptions a conversion can throw. */
  datatype Fault = NullReference | InvalidCast | Overflow
}
