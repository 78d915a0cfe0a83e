/**
 * The fixed-width integers and the integer operators of C#.
 * Dafny's `/` and `%` are Euclidean; C# truncates the quotient toward zero,
 * so its remainder takes the sign of the dividend. Overflow of `int`
 * arithmetic in an unchecked context wraps around modulo 2^32.
 */
module CSharpInt {

  const INT_MIN: int := -0x8000_0000
  const INT_MAX: int := 0x7fff_ffff
  const LONG_MIN: int := -0x8000_0000_0000_0000
  const LONG_MAX: int := 0x7fff_ffff_ffff_ffff

  predicate IsInt32(x: int) { INT_MIN <= x <= INT_MAX }
  predicate IsInt64(x: int) { LONG_MIN <= x <= LONG_MAX }

  /** The value an unchecked 32-bit `int` computation yields for the mathematical value `x`. */
  function Wrap32(x: int): (r: int)
    ensures IsInt32(r)
    ensures (r - x) % 0x1_0000_0000 == 0
    ensures IsInt32(x) ==> r == x
  {
    var m := (x - INT_MIN) % 0x1_0000_0000;
    m + INT_MIN
  }

  /** The value an unchecked 64-bit `long` computation yields for the mathematical value `x`. */
  function Wrap64(x: int): (r: int)
    ensures IsInt64(r)
    ensures (r - x) % 0x1_0000_0000_0000_0000 == 0
    ensures IsInt64(x) ==> r == x
  {
    var m := (x - LONG_MIN) % 0x1_0000_0000_0000_0000;
    m + LONG_MIN
  }

  /** C# `a / m`: the quotient truncated toward zero. */
  function Quot(a: int, m: int): int
    requires m != 0
  {
    if a >= 0 then (if m > 0 then a / m else -(a / -m))
    else (if m > 0 then -((-a) / m) else (-a) / (-m))
  }

  /** C# `a % m`: the remainder that goes with `Quot`. */
  function Rem(a: int, m: int): int
    requires m != 0
  {
    a - Quot(a, m) * m
  }

  /** The defining properties of C#'s division: `a == q*m + r`, `|r| < |m|`, and `r` has the sign of `a`. */
  lemma QuotRem(a: int, m: int)
    requires m != 0
    ensures a == Quot(a, m) * m + Rem(a, m)
    ensures a >= 0 ==> 0 <= Rem(a, m) < (if m > 0 then m else -m)
    ensures a < 0 ==> -(if m > 0 then m else -m) < Rem(a, m) <= 0
    ensures a >= 0 && m > 0 ==> Quot(a, m) == a / m && Rem(a, m) == a % m
  {
    if a >= 0 {
      if m > 0 {
      } else {
        assert a == (a / -m) * -m + a % -m;
      }
    } else {
      if m > 0 {
        assert -a == ((-a) / m) * m + (-a) % m;
      } else {
        assert -a == ((-a) / -m) * -m + (-a) % -m;
      }
    }
  }

  /** On a negative dividend the C# remainder differs from Dafny's: -7 % 3 is -1 in C#, 2 in Dafny. */
  lemma RemDiffersOnNegative()
    ensures Rem(-7, 3) == -1 && -7 % 3 == 2
  {
  }

  /** For a positive divisor, C#'s remainder and Dafny's agree up to a multiple of the divisor. */
  lemma RemCongruent(a: int, m: int)
    requires m > 0
    ensures (Rem(a, m) - a) % m == 0
    ensures Rem(a, m) % m == a % m
  {
    var q := Quot(a, m);
    assert Rem(a, m) == a + (-q) * m;
    ModMultiple(a, -q, m);
    ModMultiple(0, -q, m);
    assert Rem(a, m) - a == 0 + (-q) * m;
  }

  lemma ModMultiple(a: int, k: int, m: int)
    requires m > 0
    ensures (a + k * m) % m == a % m
  {
    var q, r := a / m, a % m;
    assert a == q * m + r;
    assert a + k * m == (q + k) * m + r by {
      assert (q + k) * m == q * m + k * m;
    }
    DivModUnique(a + k * m, m, q + k, r);
  }

  /** Euclidean division is unique: `q*m + r` with `0 <= r < m` has quotient `q` and remainder `r`. */
  lemma DivModUnique(a: int, m: int, q: int, r: int)
    requires m > 0 && 0 <= r < m && a == q * m + r
    ensures a / m == q && a % m == r
  {
    var q0, r0 := a / m, a % m;
    var d := q - q0;
    assert d * m == r0 - r by {
      assert q * m - q0 * m == d * m;
    }
    if d > 0 {
      MulAtLeast(d, m);
      assert false;
    } else if d < 0 {
      MulAtLeast(-d, m);
      assert false;
    }
  }

  lemma MulAtLeast(d: int, m: int)
    requires d >= 1 && m > 0
    ensures d * m >= m && (-d) * m <= -m
  {
  }
}
