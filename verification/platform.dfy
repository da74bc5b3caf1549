/**
 Machine-level facts shared by the allocator, the dynamic array and the
 build tool. The model fixes the LP64 data model (64-bit `size_t`,
 `uintptr_t` and pointers), which is what `ZR_ENVIRONMENT == 64` selects.
 */
module Platform {

  /** `(size_t)-1`: the largest value of `size_t` (and of `ZrSize`). */
  const SIZE_MAX: nat := 0xFFFF_FFFF_FFFF_FFFF

  /** Number of distinct `size_t` values; unsigned arithmetic is taken modulo this. */
  const SIZE_MODULUS: nat := SIZE_MAX + 1

  /** Number of distinct addresses (`uintptr_t` is 64 bits wide). */
  const ADDRESS_SPACE: nat := SIZE_MODULUS

  /** `sizeof(void *)`. */
  const POINTER_SIZE: nat := 8

  /** A value that fits in a `size_t`. */
  predicate IsSize(x: int) {
    0 <= x <= SIZE_MAX
  }

  /** The result of an unsigned C expression whose mathematical value is `x`. */
  function Wrap(x: int): (r: nat)
    ensures IsSize(r)
    ensures IsSize(x) ==> r == x
  {
    x % SIZE_MODULUS
  }

  /** A value or nothing: a possibly-null pointer, a lookup that can miss. */
  datatype Option<T> = None | Some(value: T)

  /** One byte of memory. */
  newtype byte = x: int | 0 <= x < 256

  /** Unsigned addition wraps; adding a wrapped summand is the same as adding the sum. */
  lemma WrapAdd(a: int, b: int)
    ensures Wrap(Wrap(a) + Wrap(b)) == Wrap(a + b)
  {
    var m := SIZE_MODULUS;
    var qa, ra := a / m, a % m;
    var qb, rb := b / m, b % m;
    assert a == qa * m + ra;
    assert b == qb * m + rb;
    assert a + b == (qa + qb) * m + (ra + rb);
    ModOfMultipleShift(ra + rb, qa + qb, m);
  }

  /** A value of at least one but less than two moduli wraps around once. */
  lemma WrapOnce(x: int)
    requires SIZE_MODULUS <= x < 2 * SIZE_MODULUS
    ensures Wrap(x) == x - SIZE_MODULUS
  {
    DivModUnique(x, SIZE_MODULUS, 1, x - SIZE_MODULUS);
  }

  /** Adding a multiple of `m` does not change the remainder modulo `m`. */
  lemma ModOfMultipleShift(r: int, q: int, m: int)
    requires m > 0
    ensures (q * m + r) % m == r % m
  {
    var x := q * m + r;
    var q1, r1 := r / m, r % m;
    assert r == q1 * m + r1;
    assert x == (q + q1) * m + r1;
    DivModUnique(x, m, q + q1, r1);
  }

  /** Division with remainder has one answer. */
  lemma DivModUnique(x: int, m: int, q: int, r: int)
    requires m > 0
    requires 0 <= r < m
    requires x == q * m + r
    ensures x / m == q
    ensures x % m == r
  {
    var q0, r0 := x / m, x % m;
    assert x == q0 * m + r0;
    var d := q - q0;
    assert d * m == r0 - r by {
      assert q * m - q0 * m == (q - q0) * m;
    }
    if d > 0 {
      AtLeastOnce(d, m);
    } else if d < 0 {
      AtLeastOnce(-d, m);
    }
  }

  lemma AtLeastOnce(d: int, m: int)
    requires d >= 1 && m > 0
    ensures d * m >= m
  {
    assert d * m == (d - 1) * m + m;
    assert (d - 1) * m >= 0;
  }
}
