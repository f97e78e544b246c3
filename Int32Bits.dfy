/** The C# `int` bit operators the colour code uses (`<<`, `>>`, `|`, `&` with a byte mask),
    written out on mathematical integers. */
module Int32Bits {
  import opened Common

  function Pow2(k: nat): (p: nat)
    ensures p >= 1
  {
    if k == 0 then 1 else 2 * Pow2(k - 1)
  }

  /** Bitwise OR of two naturals, one bit at a time from the lowest. */
  function OrBits(x: nat, y: nat): nat
    decreases x + y
  {
    if x == 0 then y
    else if y == 0 then x
    else (if x % 2 == 1 || y % 2 == 1 then 1 else 0) + 2 * OrBits(x / 2, y / 2)
  }

  /** `x << k` on a C# `int`: the bits shifted out at the top are lost. */
  function Shl(x: Int32, k: nat): Int32
  {
    Wrap32(x * Pow2(k))
  }

  /** `x >> k` on a C# `int` for the shift counts the colour code uses: an arithmetic shift,
      which rounds towards minus infinity. */
  function Shr(x: Int32, k: nat): Int32
    requires k == 8 || k == 16 || k == 24
  {
    Pow2Values();
    x / Pow2(k)
  }

  /** `x | y` on C# `int`s. */
  function Or(x: Int32, y: Int32): Int32
  {
    Wrap32(OrBits(Unsigned32(x), Unsigned32(y)))
  }

  /** Byte number `i` (0 = lowest) of the 32 bits of `x`. */
  function ByteOf(x: Int32, i: nat): (b: Byte)
    requires i < 4
  {
    (Unsigned32(x) / Pow2(8 * i)) % 256
  }

  /** `x & (0xFF << 8 * i)` on a C# `int`: keeps byte `i` where it is and clears the rest. */
  function MaskByte(x: Int32, i: nat): (r: Int32)
    requires i < 3
    ensures r == ByteOf(x, i) * Pow2(8 * i)
  {
    Pow2Values();
    assert Pow2(8 * i) <= 0x1_0000 by {
      if i == 1 { assert 8 * i == 8; } else if i == 2 { assert 8 * i == 16; }
    }
    ByteOf(x, i) * Pow2(8 * i)
  }

  lemma Pow2Add(j: nat, k: nat)
    ensures Pow2(j + k) == Pow2(j) * Pow2(k)
  {
    if j > 0 {
      Pow2Add(j - 1, k);
    }
  }

  lemma Pow2Values()
    ensures Pow2(8) == 0x100 && Pow2(16) == 0x1_0000 && Pow2(24) == 0x100_0000
    ensures Pow2(0) == 1
  {
  }

  /** OR of a multiple of `2^k` with a number below `2^k` is their sum: the two sets of bits
      do not overlap. */
  lemma {:induction false} OrDisjoint(m: nat, lo: nat, k: nat)
    requires lo < Pow2(k)
    ensures OrBits(m * Pow2(k), lo) == m * Pow2(k) + lo
  {
    var hi := m * Pow2(k);
    if hi == 0 || lo == 0 {
    } else {
      assert k > 0;
      var p := Pow2(k - 1);
      assert hi == 2 * (m * p);
      assert lo / 2 < p;
      OrDisjoint(m, lo / 2, k - 1);
      assert OrBits(hi, lo) == lo % 2 + 2 * (m * p + lo / 2);
    }
  }

  /** `OrDisjoint` with the power of two named, so that callers can pass it as a literal. */
  lemma OrDisjointP(m: nat, lo: nat, k: nat, p: nat)
    requires p == Pow2(k) && lo < p
    ensures OrBits(m * p, lo) == m * p + lo
  {
    OrDisjoint(m, lo, k);
  }

  /** An `int` whose 32 bits read as `n` is given back by `Unsigned32`. */
  lemma UnsignedWrap(n: int)
    requires 0 <= n < TwoTo32
    ensures Unsigned32(Wrap32(n)) == n
  {
  }
}
