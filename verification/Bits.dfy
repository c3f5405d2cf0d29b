/**
 Python's bit operators on unbounded integers, and the few facts the generated
 code relies on: a mask keeps the low bits, and OR-ing a value shifted past the
 accumulated bits is addition.
 */
module Bits {

  /** 2 to the power n. */
  function Pow2(n: nat): (p: nat)
    ensures p > 0
  {
    if n == 0 then 1 else 2 * Pow2(n - 1)
  }

  /** Distance of an integer from the fixed points 0 and -1 of halving. */
  function Spread(x: int): nat {
    if x >= 0 then x else -1 - x
  }

  /** `a & b` with the infinite two's complement reading Python gives negative integers. */
  function And(a: int, b: int): int
    decreases Spread(a) + Spread(b)
  {
    if (a == 0 || a == -1) && (b == 0 || b == -1) then
      if a == -1 && b == -1 then -1 else 0
    else
      (a % 2) * (b % 2) + 2 * And(a / 2, b / 2)
  }

  /** `a | b` on unbounded integers. */
  function Or(a: int, b: int): int
    decreases Spread(a) + Spread(b)
  {
    if (a == 0 || a == -1) && (b == 0 || b == -1) then
      if a == -1 || b == -1 then -1 else 0
    else
      (if a % 2 == 1 || b % 2 == 1 then 1 else 0) + 2 * Or(a / 2, b / 2)
  }

  /** `a << n` */
  function Shl(a: int, n: nat): int { a * Pow2(n) }

  /** `a >> n` (rounds towards minus infinity) */
  function Shr(a: int, n: nat): int { a / Pow2(n) }

  lemma {:induction false} Pow2Add(a: nat, b: nat)
    ensures Pow2(a + b) == Pow2(a) * Pow2(b)
  {
    if a > 0 {
      Pow2Add(a - 1, b);
    }
  }

  /** The powers the fields and masks are made of. */
  lemma Powers()
    ensures Pow2(1) == 2 && Pow2(2) == 4 && Pow2(3) == 8 && Pow2(4) == 16 && Pow2(5) == 32 && Pow2(6) == 64
    ensures Pow2(7) == 128 && Pow2(8) == 0x100 && Pow2(9) == 0x200 && Pow2(12) == 0x1000 && Pow2(15) == 0x8000
    ensures Pow2(16) == 0x1_0000 && Pow2(17) == 0x2_0000 && Pow2(18) == 0x4_0000 && Pow2(19) == 0x8_0000
    ensures Pow2(24) == 0x100_0000 && Pow2(26) == 0x400_0000 && Pow2(31) == 0x8000_0000 && Pow2(32) == 0x1_0000_0000
  {
    assert Pow2(8) == 256;
    Pow2Add(8, 1);
    Pow2Add(8, 4);
    Pow2Add(8, 7);
    Pow2Add(8, 8);
    Pow2Add(16, 1);
    Pow2Add(16, 2);
    Pow2Add(16, 3);
    Pow2Add(16, 8);
    Pow2Add(18, 8);
    Pow2Add(16, 15);
    Pow2Add(16, 16);
  }

  lemma {:induction false} Pow2Monotone(a: nat, b: nat)
    requires a <= b
    ensures Pow2(a) <= Pow2(b)
  {
    if a < b {
      Pow2Monotone(a, b - 1);
    }
  }

  lemma AndZero(a: int)
    ensures And(a, 0) == 0
    decreases Spread(a)
  {
    if a != 0 && a != -1 {
      AndZero(a / 2);
    }
  }

  /** Halving commutes with taking a remainder modulo an even number. */
  lemma HalfOfRemainder(x: int, m: int)
    requires m > 0
    ensures x % (2 * m) == x % 2 + 2 * (x / 2 % m)
  {
    var q, r := x / 2 / m, x / 2 % m;
    assert x / 2 == q * m + r;
    assert x == 2 * (q * m + r) + x % 2;
    assert x == q * (2 * m) + (2 * r + x % 2);
    RemainderIs(x, 2 * m, q, 2 * r + x % 2);
  }

  lemma MultipleIsFar(d: int, m: int)
    requires m > 0
    ensures d >= 1 ==> d * m >= m
    ensures d <= -1 ==> d * m <= -m
  {
    if d >= 1 {
      assert (d - 1) * m >= 0;
    } else if d <= -1 {
      assert (-d - 1) * m >= 0;
    }
  }

  /** The quotient and remainder are the only pair that fits. */
  lemma RemainderIs(x: int, m: int, q: int, r: int)
    requires m > 0 && 0 <= r < m
    requires x == q * m + r
    ensures x % m == r && x / m == q
  {
    var dq := x / m - q;
    assert dq * m == r - x % m by {
      assert x == x / m * m + x % m;
      assert dq * m == x / m * m - q * m;
    }
    MultipleIsFar(dq, m);
  }

  /** Masking with n one-bits is the remainder modulo 2^n, also for negative integers. */
  lemma {:induction false} MaskIsRemainder(x: int, n: nat)
    ensures And(x, Pow2(n) - 1) == x % Pow2(n)
    decreases n
  {
    if n == 0 {
      AndZero(x);
    } else {
      var m := Pow2(n - 1);
      MaskIsRemainder(x / 2, n - 1);
      HalfOfRemainder(x, m);
      assert (2 * m - 1) % 2 == 1 && (2 * m - 1) / 2 == m - 1;
    }
  }

  lemma OrZeroLeft(b: nat)
    ensures Or(0, b) == b
  {
  }

  /** Values with no bit in common: `|` is `+`. */
  lemma {:induction false} OrDisjoint(a: nat, b: nat, k: nat)
    requires a < Pow2(k)
    ensures Or(a, b * Pow2(k)) == a + b * Pow2(k)
  {
    if k == 0 {
      OrZeroLeft(b);
    } else {
      var h := b * Pow2(k - 1);
      assert b * Pow2(k) == 2 * h;
      OrDisjoint(a / 2, b, k - 1);
    }
  }

  lemma MulDistributes(h: int, q: int, l: int, p: int)
    ensures (h * q + l) * p == h * (p * q) + l * p
  {
    assert h * q * p == h * (p * q);
  }

  lemma MulMonotone(a: int, b: int, p: int)
    requires a <= b && p >= 0
    ensures a * p <= b * p
  {
    assert (b - a) * p >= 0;
  }

  /** A digit l below q and a digit lo below p make a number below p * q. */
  lemma TwoDigits(l: int, lo: int, p: int, q: int)
    requires 0 <= l < q && 0 <= lo < p
    ensures 0 <= l * p + lo < p * q
  {
    MulMonotone(l, q - 1, p);
    MulMonotone(0, l, p);
    assert (q - 1) * p == p * q - p;
  }

  /** Two divisions in a row. */
  lemma DivDiv(w: int, p: int, q: int)
    requires p > 0 && q > 0
    ensures p * q > 0 && w / (p * q) == w / p / q
    ensures w % (p * q) == w / p % q * p + w % p
  {
    var hi, lo := w / p, w % p;
    var h, l := hi / q, hi % q;
    assert w == hi * p + lo;
    assert hi == h * q + l;
    MulDistributes(h, q, l, p);
    TwoDigits(l, lo, p, q);
    RemainderIs(w, p * q, h, l * p + lo);
  }

  /** Reading a bit field from a word cut off above the field. */
  lemma ShiftedRemainder(w: int, a: nat, b: nat)
    ensures w % Pow2(a + b) / Pow2(a) == w / Pow2(a) % Pow2(b)
  {
    var p, q := Pow2(a), Pow2(b);
    Pow2Add(a, b);
    DivDiv(w, p, q);
    RemainderIs(w % (p * q), p, w / p % q, w % p);
  }

  predicate Bit(x: int, i: nat) { x / Pow2(i) % 2 == 1 }

  lemma BitOfHalf(x: int, i: nat)
    ensures Bit(x, i + 1) == Bit(x / 2, i)
  {
    DivDiv(x, 2, Pow2(i));
  }

  /** OR, bit by bit. */
  lemma {:induction false} OrBit(a: int, b: int, i: nat)
    ensures Bit(Or(a, b), i) == (Bit(a, i) || Bit(b, i))
    decreases i
  {
    if i > 0 {
      assert Or(a, b) / 2 == Or(a / 2, b / 2);
      OrBit(a / 2, b / 2, i - 1);
      BitOfHalf(a, i - 1);
      BitOfHalf(b, i - 1);
      BitOfHalf(Or(a, b), i - 1);
    }
  }

  /** AND, bit by bit. */
  lemma {:induction false} AndBit(a: int, b: int, i: nat)
    ensures Bit(And(a, b), i) == (Bit(a, i) && Bit(b, i))
    decreases i
  {
    if i > 0 {
      assert And(a, b) / 2 == And(a / 2, b / 2);
      AndBit(a / 2, b / 2, i - 1);
      BitOfHalf(a, i - 1);
      BitOfHalf(b, i - 1);
      BitOfHalf(And(a, b), i - 1);
    }
  }
}
