/** The 16-bit words of an analog circuit and the bits they are made of. */
module Words {
  /** C# masks the count of a shift of an `int` to its five low bits. */
  function ShiftCount(shiftSize: int): (k: bv8)
    ensures k < 32
  {
    (shiftSize % 32) as bv8
  }

  /** `(ushort)(x << k)` for a 16-bit x widened to `int`: bits moved past bit 15 are lost. */
  function ShiftLeft(x: bv16, k: bv8): bv16
  {
    if k >= 16 then 0 else x << k
  }

  /** `(ushort)(x >> k)`. */
  function ShiftRight(x: bv16, k: bv8): bv16
  {
    if k >= 16 then 0 else x >> k
  }

  /** Bit k of x, counting from the lowest. */
  function Bit(x: bv16, k: bv8): bool
    requires k < 16
  {
    (x >> k) & 1 == 1
  }

  /** Bit-level facts about the 16-bit operators. */
  lemma NotBit(x: bv16, k: bv8)
    requires k < 16
    ensures Bit(!x, k) == !Bit(x, k)
  {
  }

  lemma NotComplement(x: bv16)
    ensures !x == 0xFFFF - x && !!x == x
  {
  }

  lemma AndBit(x: bv16, y: bv16, k: bv8)
    requires k < 16
    ensures Bit(x & y, k) == (Bit(x, k) && Bit(y, k))
  {
  }

  lemma OrBit(x: bv16, y: bv16, k: bv8)
    requires k < 16
    ensures Bit(x | y, k) == (Bit(x, k) || Bit(y, k))
  {
  }

  lemma XorBit(x: bv16, y: bv16, k: bv8)
    requires k < 16
    ensures Bit(x ^ y, k) == (Bit(x, k) != Bit(y, k))
  {
  }

  lemma ShiftLeftBit(x: bv16, k: bv8, j: bv8)
    requires k < 32 && j < 16
    ensures Bit(ShiftLeft(x, k), j) == (k <= j && Bit(x, j - k))
  {
    if k < 16 {
      ShiftLeftBitBelow16(x, k, j);
    } else {
      ZeroBit(j);
    }
  }

  lemma ShiftLeftBitBelow16(x: bv16, k: bv8, j: bv8)
    requires k < 16 && j < 16
    ensures Bit(x << k, j) == (k <= j && Bit(x, j - k))
  {
  }

  lemma ShiftRightBit(x: bv16, k: bv8, j: bv8)
    requires k < 32 && j < 16
    ensures Bit(ShiftRight(x, k), j) == (j + k < 16 && Bit(x, j + k))
  {
    if k < 16 {
      ShiftRightBitBelow16(x, k, j);
    } else {
      ZeroBit(j);
    }
  }

  lemma ShiftRightBitBelow16(x: bv16, k: bv8, j: bv8)
    requires k < 16 && j < 16
    ensures Bit(x >> k, j) == (j + k < 16 && Bit(x, j + k))
  {
  }

  lemma ZeroBit(j: bv8)
    requires j < 16
    ensures !Bit(0, j)
  {
  }
}
