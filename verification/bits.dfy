/**
 Bitwise AND on unbounded naturals and powers of two. The allocator's
 power-of-two test (`x & (x - 1)`) and its alignment mask
 (`& ~(alignment - 1)`) are stated with these definitions and then related
 to plain arithmetic: "is a power of two" and "round down to a multiple".
 */
module Bits {
  import opened Platform

  /** `a & b` on naturals, one binary digit at a time. */
  function BitAnd(a: nat, b: nat): nat
    decreases a
  {
    if a == 0 || b == 0 then 0
    else 2 * BitAnd(a / 2, b / 2) + (if a % 2 == 1 && b % 2 == 1 then 1 else 0)
  }

  /** 2 raised to the power `k`. */
  function Pow2(k: nat): (r: nat)
    ensures r >= 1
  {
    if k == 0 then 1 else 2 * Pow2(k - 1)
  }

  /** The reference meaning of "power of two". */
  ghost predicate IsPow2(x: nat) {
    exists k: nat :: x == Pow2(k)
  }

  lemma BitAndSelf(a: nat)
    ensures BitAnd(a, a) == a
  {
  }

  /** Doubling preserves, and halving an even number reflects, being a power of two. */
  lemma Pow2Double(y: nat)
    requires y >= 1
    ensures IsPow2(2 * y) <==> IsPow2(y)
  {
    if IsPow2(y) {
      var k: nat :| y == Pow2(k);
      assert 2 * y == Pow2(k + 1);
    }
    if IsPow2(2 * y) {
      var k: nat :| 2 * y == Pow2(k);
      assert k != 0;
      assert y == Pow2(k - 1);
    }
  }

  /** Odd numbers other than 1 are not powers of two. */
  lemma OddNotPow2(x: nat)
    requires x > 1 && x % 2 == 1
    ensures !IsPow2(x)
  {
  }

  /**
   The decrement-and-compare test: for positive `x`, `x & (x - 1)` is zero
   exactly when `x` is a power of two.
   */
  lemma {:induction false} AndPredecessorZero(x: nat)
    requires x > 0
    ensures BitAnd(x, x - 1) == 0 <==> IsPow2(x)
  {
    if x == 1 {
      assert 1 == Pow2(0);
    } else if x % 2 == 0 {
      var y := x / 2;
      AndPredecessorEven(x);
      AndPredecessorZero(y);
      Pow2Double(y);
    } else {
      var y := x / 2;
      AndPredecessorOdd(x);
      BitAndSelf(y);
      OddNotPow2(x);
    }
  }

  /** For even `x`, the last digit of `x & (x - 1)` is 0 and the rest is `x/2 & (x/2 - 1)`. */
  lemma AndPredecessorEven(x: nat)
    requires x > 0 && x % 2 == 0
    ensures x == 2 * (x / 2) && BitAnd(x, x - 1) == 2 * BitAnd(x / 2, x / 2 - 1)
  {
    assert (x - 1) / 2 == x / 2 - 1 && (x - 1) % 2 == 1;
  }

  /** For odd `x`, the last digit of `x & (x - 1)` is 0 and the rest is `x/2 & x/2`. */
  lemma AndPredecessorOdd(x: nat)
    requires x > 1 && x % 2 == 1
    ensures BitAnd(x, x - 1) == 2 * BitAnd(x / 2, x / 2)
  {
    assert (x - 1) / 2 == x / 2 && (x - 1) % 2 == 0;
  }

  lemma {:induction false} Pow2Add(a: nat, b: nat)
    ensures Pow2(a + b) == Pow2(a) * Pow2(b)
  {
    if a > 0 {
      Pow2Add(a - 1, b);
    }
  }

  /** A power of two is divisible by every smaller power of two. */
  lemma Pow2Divides(j: nat, k: nat)
    requires j <= k
    ensures Pow2(k) % Pow2(j) == 0
  {
    Pow2Add(k - j, j);
    DivModUnique(Pow2(k), Pow2(j), Pow2(k - j), 0);
  }

  /** Of two powers of two, the smaller divides the larger. */
  lemma Pow2Ordered(a: nat, b: nat)
    requires IsPow2(a) && IsPow2(b) && a <= b
    ensures b % a == 0
  {
    var j: nat :| a == Pow2(j);
    var k: nat :| b == Pow2(k);
    if j > k {
      Pow2Monotone(k, j);
    }
    Pow2Divides(j, k);
  }

  lemma Pow2Monotone(j: nat, k: nat)
    requires j < k
    ensures Pow2(j) < Pow2(k)
    decreases k
  {
    if j < k - 1 {
      Pow2Monotone(j, k - 1);
    }
  }

  /** A mask of all ones below bit `n` leaves a value below `2^n` unchanged. */
  lemma {:induction false} BitAndLowMask(v: nat, n: nat)
    requires v < Pow2(n)
    ensures BitAnd(v, Pow2(n) - 1) == v
  {
    if v != 0 {
      assert n != 0;
      var m := Pow2(n) - 1;
      assert m / 2 == Pow2(n - 1) - 1 && m % 2 == 1;
      BitAndLowMask(v / 2, n - 1);
    }
  }

  /** Splitting off the lowest binary digit of a remainder by `2^k`. */
  lemma ModPow2Step(v: nat, k: nat)
    requires k > 0
    ensures v % Pow2(k) == 2 * ((v / 2) % Pow2(k - 1)) + v % 2
  {
    var p := Pow2(k - 1);
    var w, b := v / 2, v % 2;
    var q, r := w / p, w % p;
    assert w == q * p + r;
    assert v == q * Pow2(k) + (2 * r + b);
    DivModUnique(v, Pow2(k), q, 2 * r + b);
  }

  /**
   Clearing the low `k` bits with the mask `2^n - 2^k` (which is
   `~(2^k - 1)` in an `n`-bit word) rounds down to a multiple of `2^k`.
   */
  lemma {:induction false} BitAndClearLow(v: nat, n: nat, k: nat)
    requires k <= n && Pow2(k) <= Pow2(n)
    requires v < Pow2(n)
    ensures BitAnd(v, Pow2(n) - Pow2(k)) == v - v % Pow2(k)
  {
    if k == 0 {
      BitAndLowMask(v, n);
    } else if v == 0 {
    } else if k == n {
      DivModUnique(v, Pow2(n), 0, v);
    } else {
      var mask := Pow2(n) - Pow2(k);
      assert mask / 2 == Pow2(n - 1) - Pow2(k - 1) && mask % 2 == 0;
      Pow2Monotone(k, n);
      assert BitAnd(v, mask) == 2 * BitAnd(v / 2, mask / 2);
      BitAndClearLow(v / 2, n - 1, k - 1);
      ModPow2Step(v, k);
    }
  }
}
