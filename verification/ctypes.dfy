/**
 C's fixed-width unsigned arithmetic, written out over Dafny's unbounded integers,
 and the Option type used for C's NULL-or-value results.
 */
module CTypes {

  /** A value or C's NULL. */
  datatype Option<+T> = None | Some(value: T)

  const Uint32Modulus: int := 0x1_0000_0000
  const Uint64Modulus: int := 0x1_0000_0000_0000_0000

  /** `uint32_t`. */
  type uint32 = x: int | 0 <= x < 0x1_0000_0000

  function Pow2(n: nat): (r: nat)
    ensures r >= 1
  {
    if n == 0 then 1 else 2 * Pow2(n - 1)
  }

  lemma {:induction false} Pow2Add(a: nat, b: nat)
    ensures Pow2(a + b) == Pow2(a) * Pow2(b)
    decreases b
  {
    if b > 0 {
      Pow2Add(a, b - 1);
      assert Pow2(a + b) == 2 * Pow2(a + b - 1);
    }
  }

  /** The powers of two behind the C widths the application uses. */
  lemma Pow2Widths()
    ensures Pow2(8) == 0x100 && Pow2(16) == 0x1_0000 && Pow2(32) == Uint32Modulus
  {
    assert Pow2(2) == 4;
    Pow2Add(2, 2);
    Pow2Add(4, 4);
    Pow2Add(8, 8);
    Pow2Add(16, 16);
  }

  /** C's conversion of an integer to an unsigned type `bits` wide: reduction modulo 2^bits. */
  function ToUnsigned(x: int, bits: nat): (r: nat)
    ensures r < Pow2(bits)
    ensures 0 <= x < Pow2(bits) ==> r == x
    ensures (x - r) % Pow2(bits) == 0
  {
    var m := Pow2(bits);
    if 0 <= x < m then x else RemainderDiffers(x, m); x % m
  }

  /** A number and its remainder differ by a multiple of the modulus. */
  lemma RemainderDiffers(x: int, m: int)
    requires m > 0
    ensures (x - x % m) % m == 0
  {
    assert x - x % m == (x / m) * m;
    MultipleHasNoRemainder(x / m, m);
  }

  lemma MultipleHasNoRemainder(k: int, m: int)
    requires m > 0
    ensures (k * m) % m == 0
  {
    var q, r := (k * m) / m, (k * m) % m;
    assert k * m == q * m + r && 0 <= r < m;
    assert (k - q) * m == r;
    if k - q >= 1 {
      MulAtLeast(k - q, m);
    } else if k - q <= -1 {
      MulAtLeast(q - k, m);
    }
  }

  lemma MulAtLeast(a: int, m: int)
    requires a >= 1 && m > 0
    ensures a * m >= m
  {
    assert a * m == m + (a - 1) * m;
  }

  /** A negative value no larger in magnitude than 2^bits converts to itself plus 2^bits. */
  lemma ToUnsignedOfNegative(x: int, bits: nat)
    requires 0 - Pow2(bits) <= x < 0
    ensures ToUnsigned(x, bits) == x + Pow2(bits)
  {
    NegativeRemainder(x, Pow2(bits));
  }

  lemma NegativeRemainder(x: int, m: int)
    requires 0 - m <= x < 0
    ensures x % m == x + m
  {
  }

  /** `a + b` on `uint32_t`: the sum, less 2^32 when it does not fit. */
  function AddU32(a: uint32, b: uint32): (r: uint32)
    ensures a + b < Uint32Modulus ==> r == a + b
    ensures a + b >= Uint32Modulus ==> r == a + b - Uint32Modulus
  {
    (a + b) % Uint32Modulus
  }

  /** `a - b` on `uint32_t`: the difference, plus 2^32 when `b` is the larger. */
  function SubU32(a: uint32, b: uint32): (r: uint32)
    ensures a >= b ==> r == a - b
    ensures a < b ==> r == a - b + Uint32Modulus
  {
    (a - b) % Uint32Modulus
  }
}
