/** Shared vocabulary: optional values, results, and the C# integer types. */
module Common {

  /** A value that may be missing; `None` stands for a C# `null` reference. */
  datatype Option<T> = None | Some(value: T)

  /** The outcome of an operation that can throw: `Err` names the exception. */
  datatype Result<T, E> = Ok(value: T) | Err(error: E)

  const TwoTo31: int := 0x8000_0000
  const TwoTo32: int := 0x1_0000_0000

  /** C# `int` (System.Int32). */
  type Int32 = x: int | -TwoTo31 <= x < TwoTo31

  /** C# `byte` (System.Byte). */
  type Byte = x: int | 0 <= x < 256

  const IntMaxValue: Int32 := TwoTo31 - 1
  const IntMinValue: Int32 := -TwoTo31

  /** The value unchecked C# `int` arithmetic keeps of a mathematical result: its low 32 bits,
      read in two's complement. */
  function Wrap32(x: int): (r: Int32)
    ensures (x - r) % TwoTo32 == 0
    ensures -TwoTo31 <= x < TwoTo31 ==> r == x
  {
    var u := x % TwoTo32;
    if u >= TwoTo31 then u - TwoTo32 else u
  }

  /** The 32 bits of an `int`, read as an unsigned number. */
  function Unsigned32(x: Int32): (u: nat)
    ensures u < TwoTo32
    ensures Wrap32(u) == x
    ensures x >= 0 ==> u == x
  {
    if x < 0 then x + TwoTo32 else x
  }

  /** Wrapping is compatible with addition: adding after wrapping wraps to the same value. */
  lemma Wrap32Add(x: int, k: int)
    ensures Wrap32(Wrap32(x) + k) == Wrap32(x + k)
  {
    var w := Wrap32(x);
    var q := (x - w) / TwoTo32;
    assert x - w == q * TwoTo32;
    assert (w + k) % TwoTo32 == (x + k) % TwoTo32 by {
      assert x + k == (w + k) + q * TwoTo32;
    }
  }

  /** A C# `double`: a finite number or one of the special values. Rounding to 53 bits is not
      modelled. */
  datatype Double = Finite(x: real) | NaN | PositiveInfinity | NegativeInfinity

  /** `d < c` for a finite `c`: false for NaN, true for negative infinity. */
  predicate DoubleLess(d: Double, c: real)
  {
    d.NegativeInfinity? || (d.Finite? && d.x < c)
  }

  /** `d > c` for a finite `c`: false for NaN, true for positive infinity. */
  predicate DoubleGreater(d: Double, c: real)
  {
    d.PositiveInfinity? || (d.Finite? && d.x > c)
  }
}
