/**
 * Arithmetic model of the 64-bit machine word operations that the early
 * allocator's alignment helpers use: the `usize` range, powers of two, and
 * bitwise AND / NOT on unsigned integers, computed bit by bit.
 */
module Bits {
  /** 2^64: every `usize` value is below it. */
  const WORD: nat := 0x1_0000_0000_0000_0000

  /** `n` is 1, 2, 4, 8, ... */
  predicate IsPow2(n: nat)
    decreases n
  {
    if n <= 1 then n == 1 else n % 2 == 0 && IsPow2(n / 2)
  }

  /** Bitwise AND of two unsigned integers, least significant bit first. */
  function BitAnd(x: nat, y: nat): nat
    decreases x
  {
    if x == 0 || y == 0 then 0
    else 2 * BitAnd(x / 2, y / 2) + (if x % 2 == 1 && y % 2 == 1 then 1 else 0)
  }

  /** Bitwise NOT of a 64-bit word. */
  function BitNot(x: nat): nat
    requires x < WORD
  {
    WORD - 1 - x
  }

  /** Masking with all ones below a power of two keeps a smaller value intact. */
  lemma {:induction false} AndAllOnes(x: nat, m: nat)
    requires IsPow2(m) && x < m
    ensures BitAnd(x, m - 1) == x
    decreases m
  {
    if x != 0 {
      AndAllOnes(x / 2, m / 2);
    }
  }

  lemma ModHalf(x: nat, a: nat)
    requires a >= 2 && a % 2 == 0
    ensures x % a == 2 * ((x / 2) % (a / 2)) + x % 2
  {
    var c := a / 2;
    var q := x / 2;
    var t := q / c;
    var r := q % c;
    assert x == a * t + (2 * r + x % 2);
    ModUnique(x, a, t, 2 * r + x % 2);
  }

  lemma ModUnique(x: nat, a: nat, t: nat, s: nat)
    requires 0 < a && s < a && x == a * t + s
    ensures x % a == s
  {
    var q, r := x / a, x % a;
    assert a * q + r == a * t + s;
    if q > t {
      MulAtLeast(a, q - t);
    } else if q < t {
      MulAtLeast(a, t - q);
    }
  }

  lemma MulAtLeast(a: nat, k: nat)
    requires k >= 1
    ensures a * k >= a
  {
  }

  /**
   * Clearing the bits below a power of two `a` (the mask `m - a` has every bit
   * from `a` up to `m` set) rounds `x` down to a multiple of `a`.
   */
  lemma {:induction false} MaskLow(x: nat, m: nat, a: nat)
    requires IsPow2(m) && IsPow2(a) && a <= m && x < m
    ensures BitAnd(x, m - a) == x - x % a
    decreases a
  {
    if a == 1 {
      AndAllOnes(x, m);
    } else if x == 0 {
      ModUnique(x, a, 0, 0);
    } else if m == a {
      ModUnique(x, a, 0, x);
    } else {
      var y, hx, ha := m - a, x / 2, a / 2;
      assert IsPow2(m / 2) && IsPow2(ha) && ha <= m / 2 && hx < m / 2;
      assert y % 2 == 0 && y / 2 == m / 2 - ha;
      MaskLow(hx, m / 2, ha);
      assert BitAnd(x, y) == 2 * BitAnd(hx, y / 2);
      ModHalf(x, a);
      var r, hr := x % 2, hx % ha;
      assert x == 2 * hx + r;
      assert x % a == 2 * hr + r;
      assert BitAnd(x, y) == 2 * (hx - hr);
    }
  }

  lemma DoublePow2(p: nat)
    requires IsPow2(p)
    ensures IsPow2(2 * p)
  {
    assert p != 0;
    assert (2 * p) / 2 == p;
  }

  lemma DoubleFactor(h: nat, b: nat)
    ensures (2 * h) * b == 2 * (h * b)
  {
  }

  /** The product of two powers of two is a power of two. */
  lemma {:induction false} MulPow2(a: nat, b: nat)
    requires IsPow2(a) && IsPow2(b)
    ensures IsPow2(a * b)
    decreases a
  {
    if a > 1 {
      var h := a / 2;
      MulPow2(h, b);
      DoublePow2(h * b);
      DoubleFactor(h, b);
      assert a == 2 * h;
    }
  }

  lemma WordIsPow2()
    ensures IsPow2(WORD)
  {
    assert IsPow2(2);
    MulPow2(2, 2);
    MulPow2(4, 4);
    MulPow2(16, 16);
    MulPow2(256, 256);
    MulPow2(65536, 65536);
    MulPow2(0x1_0000_0000, 0x1_0000_0000);
  }

  /** `x - x % a` is the multiple of `a` obtained by rounding `x` down. */
  lemma RoundDown(x: nat, a: nat)
    requires a > 0
    ensures (x - x % a) % a == 0 && x % a <= x
  {
    ModUnique(x - x % a, a, x / a, 0);
  }
}
