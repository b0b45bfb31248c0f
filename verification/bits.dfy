/** Bit operations of JavaScript on the small non-negative numbers the codecs use.
    `x >> k` is `x / Pow2(k)`, `x & (2^k - 1)` is `x % Pow2(k)` and `x << k` is
    `x * Pow2(k)`; only `|` needs a definition of its own. */
module Bits {

  function Pow2(k: nat): (r: nat)
    ensures r >= 1
  {
    if k == 0 then 1 else 2 * Pow2(k - 1)
  }

  /** `x >> sh` for the even shifts up to 8 the codecs use, one constant divisor per shift. */
  function ShiftRight(x: nat, sh: nat): nat
    requires sh <= 8 && sh % 2 == 0
  {
    if sh == 0 then x
    else if sh == 2 then x / 4
    else if sh == 4 then x / 16
    else if sh == 6 then x / 64
    else x / 256
  }

  /** The shift is division by the power of two. */
  lemma ShiftRightIsDiv(x: nat, sh: nat)
    requires sh <= 8 && sh % 2 == 0
    ensures ShiftRight(x, sh) == x / Pow2(sh)
  {
    Pow2Values();
  }

  /** Bitwise OR of two naturals, bit by bit from the least significant end. */
  function Or(a: nat, b: nat): (r: nat)
    ensures r <= a + b
    ensures a <= r && b <= r
    decreases a + b
  {
    if a == 0 then b
    else if b == 0 then a
    else 2 * Or(a / 2, b / 2) + (if a % 2 == 1 || b % 2 == 1 then 1 else 0)
  }

  /** When the bits of `b` all lie below bit `k` and `a` is a multiple of `2^k`, OR is addition. */
  lemma {:induction false} OrDisjoint(h: nat, b: nat, k: nat)
    requires b < Pow2(k)
    ensures Or(h * Pow2(k), b) == h * Pow2(k) + b
    decreases k
  {
    var a := h * Pow2(k);
    if a == 0 || b == 0 {
    } else {
      var p := Pow2(k - 1);
      assert Pow2(k) == 2 * p;
      assert a == 2 * (h * p);
      assert a / 2 == h * p;
      assert a % 2 == 0;
      assert b / 2 < p;
      OrDisjoint(h, b / 2, k - 1);
    }
  }

  /** The same, with the operands in either order. */
  lemma {:induction false} OrTag(h: nat, v: nat, k: nat)
    requires v < Pow2(k)
    ensures Or(h * Pow2(k), v) == h * Pow2(k) + v
    ensures Or(v, h * Pow2(k)) == h * Pow2(k) + v
  {
    OrDisjoint(h, v, k);
    OrCommutes(v, h * Pow2(k));
  }

  /** OR with a value below 4, 16 or 64 placed under a multiple of it is addition. */
  lemma OrBelow4(h: nat, v: nat)
    requires v < 4
    ensures Or(h * 4, v) == h * 4 + v
  {
    Pow2Values();
    OrTag(h, v, 2);
  }

  lemma OrBelow16(h: nat, v: nat)
    requires v < 16
    ensures Or(h * 16, v) == h * 16 + v
  {
    Pow2Values();
    OrTag(h, v, 4);
  }

  lemma OrBelow64(h: nat, v: nat)
    requires v < 64
    ensures Or(h * 64, v) == h * 64 + v
  {
    Pow2Values();
    OrTag(h, v, 6);
  }

  lemma {:induction false} OrCommutes(a: nat, b: nat)
    ensures Or(a, b) == Or(b, a)
    decreases a + b
  {
    if a == 0 || b == 0 {
    } else {
      OrCommutes(a / 2, b / 2);
    }
  }

  /** Quotient and remainder are determined by any decomposition `x == q * d + r`. */
  lemma DivModUnique(x: int, d: int, q: int, r: int)
    requires d > 0 && 0 <= r < d && x == q * d + r
    ensures x / d == q && x % d == r
  {
    var q', r' := x / d, x % d;
    assert q' * d + r' == q * d + r;
    Distributes(q, q', d);
    if q' < q {
      MulAtLeast(q - q', d);
      assert false;
    } else if q < q' {
      Distributes(q', q, d);
      MulAtLeast(q' - q, d);
      assert false;
    }
  }

  lemma Distributes(a: int, b: int, d: int)
    ensures (a - b) * d == a * d - b * d
  {
  }

  /** A positive multiple of `d` is at least `d`. */
  lemma {:induction false} MulAtLeast(a: int, d: int)
    requires a >= 1 && d >= 0
    ensures a * d >= d
    decreases a
  {
    if a > 1 {
      MulAtLeast(a - 1, d);
      assert a * d == (a - 1) * d + d;
    }
  }

  /** The powers the codecs shift by. */
  lemma Pow2Values()
    ensures Pow2(0) == 1 && Pow2(2) == 4 && Pow2(4) == 16 && Pow2(6) == 64
    ensures Pow2(7) == 128 && Pow2(8) == 256 && Pow2(12) == 4096
  {
    assert Pow2(2) == 4;
    assert Pow2(4) == 16;
    assert Pow2(6) == 64;
    assert Pow2(8) == 256;
    assert Pow2(10) == 1024;
  }
}
