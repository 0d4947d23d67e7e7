/**
 * Value types shared by the whole model: optional results, the machine
 * integer widths of the C code (64-bit Linux), bytes and errno values, and
 * the few facts about powers of two and division the bit and index
 * arithmetic relies on.
 */
module Base {
  datatype Option<T> = None | Some(value: T)

  type byte = x: nat | x < 0x100
  type u16 = x: nat | x < 0x1_0000
  type u32 = x: nat | x < 0x1_0000_0000
  type u64 = x: nat | x < 0x1_0000_0000_0000_0000
  /** C `int`. */
  type i32 = x: int | -0x8000_0000 <= x < 0x8000_0000

  const U16_LIMIT: nat := 0x1_0000
  const U32_LIMIT: nat := 0x1_0000_0000
  const U64_LIMIT: nat := 0x1_0000_0000_0000_0000
  /** `size_t` is 64 bits wide on the targets the program supports. */
  const SIZE_MAX: nat := U64_LIMIT - 1
  const INT_MAX: int := 0x7FFF_FFFF
  const LONG_MAX: int := 0x7FFF_FFFF_FFFF_FFFF
  const LONG_MIN: int := -0x8000_0000_0000_0000

  // errno values of Linux
  const EINTR: int := 4
  const EAGAIN: int := 11
  const EINVAL: int := 22
  const ENOBUFS: int := 105

  /** 2^n, the arithmetic meaning of the C shifts `1 << n`. */
  function Pow2(n: nat): (r: nat)
    ensures r >= 1
  {
    if n == 0 then 1 else 2 * Pow2(n - 1)
  }

  /** Quotient and remainder are unique: a == q * d + r with r < d fixes both. */
  lemma ModUnique(a: nat, d: nat, q: nat, r: nat)
    requires d > 0 && r < d && a == q * d + r
    ensures a / d == q && a % d == r
  {
    var q' := a / d;
    assert a == q' * d + a % d;
    if q' < q {
      MulLe(q' + 1, q, d);
    } else if q' > q {
      MulLe(q + 1, q', d);
    }
  }

  /** Multiplying by the same natural keeps the order. */
  lemma MulLe(x: nat, y: nat, d: nat)
    requires x <= y
    ensures x * d <= y * d
  {
  }
}
