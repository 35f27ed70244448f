/**
 * Unsigned integers as natural numbers: powers of two, shifts, bit width and
 * the bitwise operators, with the facts about them that the tries, the
 * tables and the serialiser rely on.
 */
module Bits {

  /** 2^k. */
  function Pow2(k: nat): (r: nat)
    ensures r >= 1
  {
    if k == 0 then 1 else 2 * Pow2(k - 1)
  }

  lemma {:induction false} Pow2Add(a: nat, b: nat)
    ensures Pow2(a + b) == Pow2(a) * Pow2(b)
    decreases a
  {
    if a > 0 {
      Pow2Add(a - 1, b);
      assert Pow2(a + b) == 2 * Pow2(a - 1 + b);
    }
  }

  lemma Pow2Mono(a: nat, b: nat)
    requires a <= b
    ensures Pow2(a) <= Pow2(b)
  {
    Pow2Add(a, b - a);
  }

  /** x >> k on an unsigned value, one bit at a time. */
  function Shr(x: nat, k: nat): nat {
    if k == 0 then x else Shr(x / 2, k - 1)
  }

  /** x >> k is division by 2^k. */
  lemma {:induction false} ShrDiv(x: nat, k: nat)
    ensures Shr(x, k) == x / Pow2(k)
    decreases k
  {
    if k > 0 {
      ShrDiv(x / 2, k - 1);
      DivDiv(x, 2, Pow2(k - 1));
    }
  }

  /** x << k when no bit is shifted out. */
  function Shl(x: nat, k: nat): nat {
    x * Pow2(k)
  }

  /** Division is unique: a quotient and remainder in range are the ones `/` and `%` give. */
  lemma DivUnique(x: nat, d: nat, q: nat, r: nat)
    requires d > 0 && r < d && x == q * d + r
    ensures x / d == q && x % d == r
  {
    var q', r' := x / d, x % d;
    assert x == q' * d + r';
    if q' < q {
      assert (q - q') * d == r' - r;
      assert (q - q') * d >= d by { MulAtLeast(q - q', d); }
    } else if q' > q {
      assert (q' - q) * d == r - r';
      assert (q' - q) * d >= d by { MulAtLeast(q' - q, d); }
    }
  }

  /** A quotient is below m when the dividend is below d * m. */
  lemma DivBelow(x: nat, d: nat, m: nat)
    requires d > 0 && x < d * m
    ensures x / d < m
  {
  }

  /** Numbers with the same quotient and remainder are equal. */
  lemma DivModSame(x: nat, y: nat, d: nat)
    requires d > 0 && x / d == y / d && x % d == y % d
    ensures x == y
  {
    assert x == (x / d) * d + x % d;
    assert y == (y / d) * d + y % d;
  }

  lemma MulAtLeast(a: nat, d: nat)
    requires a >= 1
    ensures a * d >= d
  {
  }

  lemma DivDiv(x: nat, a: nat, b: nat)
    requires a > 0 && b > 0
    ensures x / a / b == x / (a * b)
  {
    var q1, r1 := x / a, x % a;
    var q2, r2 := q1 / b, q1 % b;
    assert x == q1 * a + r1;
    assert q1 == q2 * b + r2;
    Expand(q2, b, r2, a, r1);
    Below(r2, a, b, r1);
    DivUnique(x, a * b, q2, r2 * a + r1);
  }

  lemma Expand(q2: nat, b: nat, r2: nat, a: nat, r1: nat)
    ensures (q2 * b + r2) * a + r1 == q2 * (a * b) + (r2 * a + r1)
  {
  }

  lemma Below(r2: nat, a: nat, b: nat, r1: nat)
    requires r2 < b && r1 < a
    ensures r2 * a + r1 < a * b
  {
    assert r2 * a <= (b - 1) * a;
  }

  lemma {:induction false} ShrShr(x: nat, a: nat, b: nat)
    ensures Shr(Shr(x, a), b) == Shr(x, a + b)
    decreases a
  {
    if a > 0 {
      ShrShr(x / 2, a - 1, b);
    }
  }

  lemma {:induction false} ShrZero(x: nat, k: nat)
    ensures Shr(x, k) == 0 <==> x < Pow2(k)
    decreases k
  {
    if k > 0 {
      ShrZero(x / 2, k - 1);
    }
  }

  lemma {:induction false} ShlShr(p: nat, b: nat, k: nat)
    requires b <= k
    ensures Shr(Shl(p, b), k) == Shr(p, k - b)
    decreases b
  {
    if b > 0 {
      ShlShr(p, b - 1, k - 1);
      assert Shl(p, b) == 2 * Shl(p, b - 1);
      assert Shl(p, b) / 2 == Shl(p, b - 1);
    }
  }

  /** std::bit_width: the number of bits needed to write x. */
  function BitWidth(x: nat): nat {
    if x == 0 then 0 else 1 + BitWidth(x / 2)
  }

  /** x fits in k bits exactly when its bit width is at most k. */
  lemma {:induction false} BitWidthFits(x: nat, k: nat)
    ensures BitWidth(x) <= k <==> x < Pow2(k)
    decreases k
  {
    if x > 0 && k > 0 {
      BitWidthFits(x / 2, k - 1);
    }
  }

  /** Bit-by-bit exclusive or. */
  function Xor(a: nat, b: nat): nat
    decreases a + b
  {
    if a == 0 && b == 0 then 0 else 2 * Xor(a / 2, b / 2) + (a + b) % 2
  }

  /** Bit-by-bit and. */
  function And(a: nat, b: nat): nat
    decreases a + b
  {
    if a == 0 || b == 0 then 0 else 2 * And(a / 2, b / 2) + (a % 2) * (b % 2)
  }

  /** Bit-by-bit or. */
  function Or(a: nat, b: nat): nat
    decreases a + b
  {
    if a == 0 && b == 0 then 0 else 2 * Or(a / 2, b / 2) + (if a % 2 == 1 || b % 2 == 1 then 1 else 0)
  }

  lemma {:induction false} XorZero(a: nat, b: nat)
    ensures Xor(a, b) == 0 <==> a == b
    decreases a + b
  {
    if !(a == 0 && b == 0) {
      XorZero(a / 2, b / 2);
    }
  }

  lemma {:induction false} XorShr(a: nat, b: nat, k: nat)
    ensures Shr(Xor(a, b), k) == Xor(Shr(a, k), Shr(b, k))
    decreases k
  {
    if k > 0 {
      XorHalf(a, b);
      XorShr(a / 2, b / 2, k - 1);
    }
  }

  lemma XorHalf(a: nat, b: nat)
    ensures Xor(a, b) / 2 == Xor(a / 2, b / 2)
  {
    if !(a == 0 && b == 0) {
      var y := Xor(a / 2, b / 2);
      DivUnique(2 * y + (a + b) % 2, 2, y, (a + b) % 2);
    }
  }

  /** The bit width of a ^ b is at most k exactly when a and b agree above bit k. */
  lemma XorWidth(a: nat, b: nat, k: nat)
    ensures BitWidth(Xor(a, b)) <= k <==> Shr(a, k) == Shr(b, k)
  {
    BitWidthFits(Xor(a, b), k);
    ShrZero(Xor(a, b), k);
    XorShr(a, b, k);
    XorZero(Shr(a, k), Shr(b, k));
  }

  /** x & (2^k - 1) keeps the low k bits. */
  lemma {:induction false} AndLow(x: nat, k: nat)
    ensures And(x, Pow2(k) - 1) == x % Pow2(k)
    decreases k
  {
    if k > 0 && x > 0 {
      var m := Pow2(k - 1);
      AndLow(x / 2, k - 1);
      AndOdd(x, m - 1);
      ModDouble(x, m);
      AndLowStep(x, k, m);
    } else if k == 0 {
      AndZeroMask(x);
    } else {
      AndZero(k);
    }
  }

  lemma AndZeroMask(x: nat)
    ensures And(x, Pow2(0) - 1) == x % Pow2(0)
  {
    assert Pow2(0) == 1;
  }

  lemma AndZero(k: nat)
    ensures And(0, Pow2(k) - 1) == 0 % Pow2(k)
  {
  }

  lemma AndOdd(x: nat, n: nat)
    requires x > 0
    ensures And(x, 2 * n + 1) == 2 * And(x / 2, n) + x % 2
  {
    assert (2 * n + 1) / 2 == n;
  }

  lemma ModDouble(x: nat, m: nat)
    requires m > 0
    ensures x % (2 * m) == 2 * ((x / 2) % m) + x % 2
  {
    var h := x / 2;
    assert x == 2 * h + x % 2;
    assert h == (h / m) * m + h % m;
    Expand(h / m, m, h % m, 2, x % 2);
    Below(h % m, 2, m, x % 2);
    DivUnique(x, 2 * m, h / m, 2 * (h % m) + x % 2);
  }

  lemma AndLowStep(x: nat, k: nat, m: nat)
    requires k > 0 && x > 0 && m == Pow2(k - 1)
    requires And(x / 2, m - 1) == (x / 2) % m
    requires And(x, 2 * (m - 1) + 1) == 2 * And(x / 2, m - 1) + x % 2
    requires x % (2 * m) == 2 * ((x / 2) % m) + x % 2
    ensures And(x, Pow2(k) - 1) == x % Pow2(k)
  {
    assert Pow2(k) == 2 * m;
    assert 2 * (m - 1) + 1 == Pow2(k) - 1;
  }

  /** x & m with m = 2^w - 2^k, that is x & ~(2^k - 1) for a w-bit x,
    * clears the low k bits. */
  lemma {:induction false} AndHigh(x: nat, k: nat, w: nat, m: nat)
    requires k <= w && x < Pow2(w) && m + Pow2(k) == Pow2(w)
    ensures And(x, m) == x - x % Pow2(k)
    decreases k
  {
    if k == 0 {
      AndAll(x, w, m);
    } else if x > 0 {
      var p := Pow2(k - 1);
      Pow2Mono(k - 1, w - 1);
      var h := Pow2(w - 1) - p;
      AndHigh(x / 2, k - 1, w - 1, h);
      AndHighStep(x, k, w, m, h);
    } else {
      DivUnique(0, Pow2(k), 0, 0);
    }
  }

  lemma AndHighStep(x: nat, k: nat, w: nat, m: nat, h: nat)
    requires 0 < k <= w && x > 0 && m + Pow2(k) == Pow2(w) && h + Pow2(k - 1) == Pow2(w - 1)
    requires And(x / 2, h) == x / 2 - (x / 2) % Pow2(k - 1)
    ensures And(x, m) == x - x % Pow2(k)
  {
    var p := Pow2(k - 1);
    assert m == 2 * h;
    AndEven(x, h);
    ModDouble(x, p);
    HighStep(x, x / 2, x % 2, p, And(x / 2, h), x % Pow2(k));
  }

  lemma AndAll(x: nat, w: nat, m: nat)
    requires x < Pow2(w) && m + Pow2(0) == Pow2(w)
    ensures And(x, m) == x - x % Pow2(0)
  {
    assert Pow2(0) == 1;
    AndLow(x, w);
    DivUnique(x, Pow2(w), 0, x);
  }

  lemma HighStep(x: nat, q: nat, r: nat, p: nat, a: nat, low: nat)
    requires p > 0 && x == 2 * q + r && a == q - q % p && low == 2 * (q % p) + r
    ensures 2 * a == x - low
  {
  }

  lemma AndEven(x: nat, h: nat)
    requires x > 0
    ensures And(x, 2 * h) == 2 * And(x / 2, h)
  {
    if h > 0 {
      assert (2 * h) / 2 == h && (2 * h) % 2 == 0;
    }
  }

  /** a | (b << k) adds the two when a fits in k bits. */
  lemma {:induction false} OrDisjoint(a: nat, b: nat, k: nat)
    requires a < Pow2(k)
    ensures Or(a, Shl(b, k)) == a + Shl(b, k)
    decreases k
  {
    if k == 0 {
      assert a == 0;
      OrZero(Shl(b, k));
    } else if !(a == 0 && b == 0) {
      OrDisjoint(a / 2, b, k - 1);
      assert Shl(b, k) == 2 * Shl(b, k - 1);
    }
  }

  /** | is symmetric. */
  lemma {:induction false} OrComm(a: nat, b: nat)
    ensures Or(a, b) == Or(b, a)
    decreases a + b
  {
    if !(a == 0 && b == 0) {
      OrComm(a / 2, b / 2);
    }
  }

  lemma {:induction false} OrZero(b: nat)
    ensures Or(0, b) == b
    decreases b
  {
    if b > 0 {
      OrZero(b / 2);
    }
  }
}
