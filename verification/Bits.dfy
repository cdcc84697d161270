/** Non-negative integer bit arithmetic as Python performs it.

    Python integers are unbounded, so every value here is a `nat`. The source's
    masks are powers of two, for which
      x & ((1 << k) - 1)   is  x % 2^k
      x & ~((1 << k) - 1)  is  x / 2^k * 2^k
      (x >> k) & 1         is  (x / 2^k) % 2
    and the model writes them that way, with the power as a literal. */
module Bits {

  /** A 64-bit word, the width of one page-table slot. */
  type u64 = x: nat | x < 0x1_0000_0000_0000_0000

  function Pow2(k: nat): (r: nat)
    ensures r >= 1
  {
    if k == 0 then 1 else 2 * Pow2(k - 1)
  }

  lemma {:induction false} Pow2Add(a: nat, b: nat)
    ensures Pow2(a + b) == Pow2(a) * Pow2(b)
  {
    if a > 0 {
      Pow2Add(a - 1, b);
      assert Pow2(a + b) == 2 * Pow2(a - 1 + b);
      assert Pow2(a) * Pow2(b) == 2 * (Pow2(a - 1) * Pow2(b));
    }
  }

  /** The powers of two at which the paging code shifts and masks. */
  lemma Pow2Values()
    ensures Pow2(9) == 0x200
    ensures Pow2(12) == 0x1000
    ensures Pow2(21) == 0x20_0000
    ensures Pow2(30) == 0x4000_0000
    ensures Pow2(39) == 0x80_0000_0000
    ensures Pow2(48) == 0x1_0000_0000_0000
    ensures Pow2(51) == 0x8_0000_0000_0000
    ensures Pow2(52) == 0x10_0000_0000_0000
    ensures Pow2(63) == 0x8000_0000_0000_0000
  {
    assert Pow2(9) == 0x200;
    assert Pow2(12) == 0x1000;
    Pow2Add(12, 9);
    Pow2Add(21, 9);
    Pow2Add(30, 9);
    Pow2Add(39, 9);
    Pow2Add(48, 3);
    Pow2Add(51, 1);
    Pow2Add(51, 12);
  }

  /** Bit k of x, Python's (x >> k) & 1. */
  function Bit(x: nat, k: nat): nat
  {
    (x / Pow2(k)) % 2
  }

  /** Bit 7, the page-size bit of an x86-64 table entry: `Page.is_huge` tests it
      on an entry and `BaseTable.is_huge` on a page's address. */
  predicate PageSizeSet(x: nat)
    ensures PageSizeSet(x) <==> Bit(x, 7) == 1
  {
    assert Pow2(7) == 0x80;
    x / 0x80 % 2 == 1
  }

  /** Python's a | b on non-negative integers. */
  function Or(a: nat, b: nat): nat
    decreases a + b
  {
    if a == 0 then b
    else if b == 0 then a
    else 2 * Or(a / 2, b / 2) + (if a % 2 == 1 || b % 2 == 1 then 1 else 0)
  }

  /** Or is bitwise: bit k of a | b is set iff it is set in a or in b. */
  lemma {:induction false} OrBits(a: nat, b: nat, k: nat)
    ensures Bit(Or(a, b), k) == (if Bit(a, k) == 1 || Bit(b, k) == 1 then 1 else 0)
    decreases k
  {
    if a == 0 || b == 0 {
      assert Bit(0, k) == 0;
    } else if k == 0 {
    } else {
      var o := Or(a / 2, b / 2);
      var low := if a % 2 == 1 || b % 2 == 1 then 1 else 0;
      assert Or(a, b) == 2 * o + low;
      ShiftBit(o, low, k - 1);
      ShiftBit(a / 2, a % 2, k - 1);
      ShiftBit(b / 2, b % 2, k - 1);
      OrBits(a / 2, b / 2, k - 1);
    }
  }

  /** Bit k+1 of 2*x + low is bit k of x. */
  lemma ShiftBit(x: nat, low: nat, k: nat)
    requires low <= 1
    ensures Bit(2 * x + low, k + 1) == Bit(x, k)
  {
    var p := Pow2(k);
    assert Pow2(k + 1) == 2 * p;
    DivDiv(2 * x + low, 2, p);
    assert (2 * x + low) / 2 == x;
  }

  lemma DivDiv(x: nat, a: nat, b: nat)
    requires a > 0 && b > 0
    ensures x / (a * b) == (x / a) / b
  {
    DivModSplit(x, a, b);
  }

  /** The remainder split at a divisor of the modulus. */
  lemma ModMod(x: nat, a: nat, b: nat)
    requires a > 0 && b > 0
    ensures x % (a * b) == x % a + a * (x / a % b)
  {
    DivModSplit(x, a, b);
  }

  /** Dividing by a*b is dividing by a and then by b; the remainders combine
      as the digits of a two-place number. */
  lemma DivModSplit(x: nat, a: nat, b: nat)
    requires a > 0 && b > 0
    ensures x / (a * b) == (x / a) / b
    ensures x % (a * b) == x % a + a * (x / a % b)
  {
    var q1, r1 := x / a, x % a;
    var q, r2 := q1 / b, q1 % b;
    TwoPlaces(x, a, b, q1, r1, q, r2);
    DivUnique(x, a * b, q, a * r2 + r1);
  }

  /** x written with the digits r1 < a and r2 < b of a two-place number. */
  lemma TwoPlaces(x: nat, a: nat, b: nat, q1: nat, r1: nat, q: nat, r2: nat)
    requires r1 < a && r2 < b
    requires x == a * q1 + r1 && q1 == b * q + r2
    ensures x == (a * b) * q + (a * r2 + r1)
    ensures a * r2 + r1 < a * b
  {
    Distribute(a, b * q, r2);
    assert a * (b * q) == (a * b) * q;
    MulMono(a, r2, b - 1);
    Distribute(a, b - 1, 1);
  }

  lemma Distribute(a: nat, u: nat, v: nat)
    ensures a * (u + v) == a * u + a * v
  {
  }

  lemma MulMono(d: nat, a: nat, b: nat)
    requires a <= b
    ensures d * a <= d * b
  {
    Distribute(d, a, b - a);
  }

  lemma DivUnique(x: nat, d: nat, q: nat, r: nat)
    requires d > 0 && r < d && x == d * q + r
    ensures x / d == q && x % d == r
  {
    var q', r' := x / d, x % d;
    assert x == d * q' + r';
    assert d * (q' - q) == r - r';
    ZeroMul(d, q' - q);
  }

  lemma ZeroMul(d: int, k: int)
    requires d > 0 && -d < d * k < d
    ensures k == 0
  {
    if k >= 1 {
      assert false;
    } else if k <= -1 {
      assert false;
    }
  }

  /** When the set bits of a and b lie on either side of bit k, a | b is a + b:
      the form in which the source composes addresses from shifted fields. */
  lemma {:induction false} OrDisjoint(a: nat, b: nat, k: nat)
    requires b < Pow2(k)
    ensures Or(a * Pow2(k), b) == a * Pow2(k) + b
    decreases k
  {
    if a == 0 || b == 0 {
    } else if k == 0 {
    } else {
      var p := Pow2(k - 1);
      assert a * Pow2(k) == 2 * (a * p);
      assert (a * Pow2(k)) / 2 == a * p;
      assert (a * Pow2(k)) % 2 == 0;
      OrDisjoint(a, b / 2, k - 1);
      assert a * Pow2(k) > 0;
    }
  }
}
