/**
 * The modular arithmetic of toys/ring/ring.h: the storage type a modulus
 * gets, the trial-division primality test, the overflow-free modular
 * product and power, and the two wrappers integer_module_group<N> (addition
 * modulo N) and integer_module_ring<N> (multiplication modulo a prime N).
 * Unsigned storage of w bits is a `nat` below Limit(w); every wrap-around is
 * written out with Wrap.
 */
module Ring {
  import opened Wrappers
  import opened Bits
  import opened Primes

  const U32: nat := 0x1_0000_0000
  const U64: nat := 0x1_0000_0000_0000_0000
  const U128: nat := 0x1_0000_0000_0000_0000_0000_0000_0000_0000

  /** The number of values of an unsigned type of w bits (32, 64 or 128). */
  function Limit(w: nat): nat {
    if w == 32 then U32 else if w == 64 then U64 else U128
  }

  /** Conversion of an integer to an unsigned type of w bits: modulo 2^w. */
  function Wrap(w: nat, v: int): (r: nat)
    ensures r < Limit(w)
    ensures 0 <= v < Limit(w) ==> r == v
  {
    v % Limit(w)
  }

  // default_elem

  /** default_elem<N>: the narrower of uint32 and uint64 that N fits in with
    * room for the sum of two residues; none past 2^63 (a static_assert). */
  function DefaultElem(n: nat): Option<nat> {
    if n <= 1 + (U32 - 1) / 2 then Some(32)
    else if n <= 1 + (U64 - 1) / 2 then Some(64)
    else None
  }

  /** The storage default_elem picks holds the sum of any two residues, and
    * 32 bits are passed over only when they cannot. */
  lemma DefaultElemFits(n: nat)
    requires n > 0
    ensures DefaultElem(n).Some? ==> 2 * (n - 1) < Limit(DefaultElem(n).value)
    ensures DefaultElem(n) == Some(64) ==> 2 * (n - 1) >= U32
    ensures DefaultElem(n).None? <==> 2 * (n - 1) >= U64
  {
  }

  /** A modulus integer_module_group accepts: positive (a static_assert) and
    * with a default storage type. */
  predicate Modulus(n: nat) {
    n > 0 && DefaultElem(n).Some?
  }

  /** The width of the default storage of a modulus. */
  function Width(n: nat): (w: nat)
    requires Modulus(n)
    ensures (w == 32 || w == 64) && n <= Limit(w) && 2 * (n - 1) < Limit(w)
  {
    DefaultElemFits(n);
    DefaultElem(n).value
  }

  // is_prime

  /** What is_prime tests: no i >= 2 with i * i <= n divides n. */
  ghost predicate NoSmallFactor(n: nat) {
    forall d: nat | 2 <= d && d * d <= n :: n % d != 0
  }

  /** The squares below which the 64-bit square i * i of is_prime never wraps. */
  const SafeSquare: nat := (U32 - 1) * (U32 - 1)

  /** is_prime(n) for a 64-bit n: trial division while i * i, computed in 64
    * bits, stays at most n. A true answer is always right; below SafeSquare
    * the answer is exactly the test. */
  method IsPrime(n: nat) returns (r: bool)
    requires n < U64
    ensures r ==> NoSmallFactor(n)
    ensures n < SafeSquare ==> (r <==> NoSmallFactor(n))
  {
    var i: nat := 2;
    while Wrap(64, i * i) <= n
      invariant 2 <= i && (i == 2 || i <= n)
      invariant forall d: nat | 2 <= d < i :: n % d != 0
      invariant n < SafeSquare ==> i < U32
      decreases n + 2 - i
    {
      if n % i == 0 {
        if n < SafeSquare {
          FactorFound(n, i);
        }
        return false;
      }
      if n < SafeSquare {
        NextBelow(n, i);
      }
      Below(n, i);
      i := i + 1;
    }
    forall d: nat | 2 <= d && d * d <= n
      ensures n % d != 0
    {
      SquarePast(d, i, n);
    }
    return true;
  }

  /** A candidate the loop enters with that does not divide n lies below n. */
  lemma Below(n: nat, i: nat)
    requires 2 <= i && (i == 2 || i <= n) && Wrap(64, i * i) <= n && n % i != 0
    ensures i < n
  {
    if i == 2 {
      assert Wrap(64, 4) == 4;
    }
    DivUnique(i, i, 1, 0);
  }

  /** Below SafeSquare, an i the loop enters with is followed by one still
    * below 2^32. */
  lemma NextBelow(n: nat, i: nat)
    requires n < SafeSquare && i < U32 && Wrap(64, i * i) <= n
    ensures i + 1 < U32
  {
    SquareFits(i);
    SquareOrder(U32 - 1, i);
  }

  /** Below SafeSquare, a divisor the loop meets has its square at most n. */
  lemma FactorFound(n: nat, i: nat)
    requires n < SafeSquare && 2 <= i < U32 && Wrap(64, i * i) <= n && n % i == 0
    ensures !NoSmallFactor(n)
  {
    SquareFits(i);
  }

  /** A square of a number below 2^32 fits in 64 bits. */
  lemma SquareFits(i: nat)
    requires i < U32
    ensures i * i < U64 && Wrap(64, i * i) == i * i
  {
    SquareOrder(i, U32);
    assert U32 * U32 == U64;
  }

  /** Squares keep the order of their roots. */
  lemma SquareOrder(a: nat, b: nat)
    ensures a < b ==> a * a < b * b
    ensures a <= b ==> a * a <= b * b
  {
    if a <= b {
      assert a * a <= a * b <= b * b;
    }
  }

  /** A loop that stopped at i, its 64-bit square past n, has passed every
    * d whose square is at most n. */
  lemma SquarePast(d: nat, i: nat, n: nat)
    requires n < U64 && d * d <= n && Wrap(64, i * i) > n
    ensures d < i
  {
    SquareOrder(i, d);

  }

  /** The test is_prime makes is primality, for every n of at least 2, and
    * holds for 0 and 1. */
  lemma NoSmallFactorPrime(n: nat)
    ensures NoSmallFactor(n) <==> n < 2 || Prime(n)
  {
    if n >= 2 && NoSmallFactor(n) {
      forall d: nat | 2 <= d < n
        ensures n % d != 0
      {
        if n % d == 0 {
          SmallFactor(n, d);
        }
      }
    }
    if Prime(n) {
      forall d: nat | 2 <= d && d * d <= n
        ensures n % d != 0
      {
        SquareOrder(2, d);
        assert d * 2 <= d * d;
      }
    }
  }

  /** A factor strictly between 1 and n, or its cofactor, has its square at
    * most n. */
  lemma SmallFactor(n: nat, d: nat)
    requires 2 <= d < n && n % d == 0
    ensures exists c: nat :: 2 <= c && c * c <= n && n % c == 0
  {
    var e := n / d;
    assert n == d * e;
    if d <= e {
      assert d * d <= d * e;
    } else {
      assert e * e <= e * d;
      assert n == e * d;
      DivUnique(n, e, d, 0);
      assert 2 <= e && e * e <= n && n % e == 0;
    }
  }

  /** prime_number<7> holds and prime_number<6> does not, so
    * integer_module_group<7> is a ring and integer_module_group<6> is not. */
  lemma SevenAndSix()
    ensures NoSmallFactor(7) && !NoSmallFactor(6)
  {
    assert 6 % 2 == 0 && 2 * 2 <= 6;
    forall d: nat | 2 <= d && d * d <= 7
      ensures 7 % d != 0
    {
      if d >= 3 {
        SquareOrder(3, d);
      }
    }
  }

  // mul_mod and safe_pow

  /** mul_mod<M>(a, b) for a first operand of tBits bits: the product in 64
    * bits when that operand is narrower than 64 bits or M fits in 32 bits,
    * in 128 bits otherwise, then reduced modulo M. */
  function MulMod(m: nat, tBits: nat, a: nat, b: nat): (r: nat)
    requires m > 0
    ensures r < m
  {
    if tBits < 64 || m <= U32 - 1 then Wrap(64, a * b) % m else Wrap(128, a * b) % m
  }

  /** Residues (and a first operand of 1) multiply without overflow in the
    * width mul_mod picks, so mul_mod is the product modulo M. */
  lemma MulModExact(m: nat, tBits: nat, a: nat, b: nat)
    requires 0 < m < U64 && a <= m && b < m && (tBits < 64 ==> m <= U32)
    ensures MulMod(m, tBits, a, b) == (a * b) % m
  {
    if tBits < 64 || m <= U32 - 1 {
      ProductFits(a, b, m, U32);
      assert U32 * U32 == Limit(64);
      assert MulMod(m, tBits, a, b) == Wrap(64, a * b) % m;
    } else {
      ProductFits(a, b, m, U64);
      assert U64 * U64 == Limit(128);
      assert MulMod(m, tBits, a, b) == Wrap(128, a * b) % m;
    }
  }

  /** Operands of a product below a bound h multiply below h * h. */
  lemma ProductFits(a: nat, b: nat, m: nat, h: nat)
    requires a <= m && b < m && m <= h
    ensures a * b < h * h
  {
    ProductBelow(a, b, m);
    SquareOrder(m, h);
  }

  /** A number at most m times one below m is below m * m. */
  lemma ProductBelow(a: nat, b: nat, m: nat)
    requires a <= m && b < m
    ensures a * b < m * m
  {
    assert a * b <= m * b;
    assert m * b < m * m;
  }

  /** One step of square-and-multiply keeps r * b^k modulo m. */
  lemma PowStep(m: nat, r: nat, b: nat, k: nat)
    requires m > 0 && k > 0
    ensures ((if k % 2 == 1 then (r * b) % m else r) * Pow((b * b) % m, k / 2)) % m == (r * Pow(b, k)) % m
  {
    var q := k / 2;
    var p := Pow(b * b, q);
    PowDouble(b, q);
    PowModBase(b * b, q, m);
    var r' := if k % 2 == 1 then (r * b) % m else r;
    calc {
      (r' * Pow((b * b) % m, q)) % m;
      { ModMulRight(r', Pow((b * b) % m, q), m); }
      (r' * (Pow((b * b) % m, q) % m)) % m;
      (r' * (p % m)) % m;
      { ModMulRight(r', p, m); }
      (r' * p) % m;
    }
    if k % 2 == 1 {
      calc {
        (r' * p) % m;
        { ModMulLeft(r * b, p, m); }
        ((r * b) * p) % m;
        { assert (r * b) * p == r * (b * Pow(b, 2 * q)); }
        (r * (b * Pow(b, 2 * q))) % m;
        { assert k == 2 * q + 1; }
        (r * Pow(b, k)) % m;
      }
    } else {
      assert k == 2 * q;
    }
  }

  /** safe_pow<M>(base, exp): 1 for exp 0, otherwise base^exp modulo M. */
  function PowMod(m: nat, x: nat, e: nat): nat
    requires m > 0
  {
    if e == 0 then 1 else Pow(x, e) % m
  }

  /** safe_pow: square-and-multiply over the bits of exp. */
  method SafePow(m: nat, tBits: nat, x: nat, e: nat) returns (r: nat)
    requires 0 < m < U64 && x < m && (tBits < 64 ==> m <= U32)
    ensures r == PowMod(m, x, e)
  {
    r := 1;
    var b: nat := x;
    var k: nat := e;
    while k != 0
      invariant b < m && r <= m && k <= e && (k == 0 && e > 0 ==> r < m) && (e == 0 ==> r == 1)
      invariant (r * Pow(b, k)) % m == Pow(x, e) % m
    {
      SafePowStep(m, tBits, x, e, r, b, k);
      if k % 2 == 1 {
        r := MulMod(m, tBits, r, b);
      }
      b := MulMod(m, 64, b, b);
      k := k / 2;
    }
    SafePowDone(m, x, e, r, b);
  }

  /** When exp reaches 0 the result is the power. */
  lemma SafePowDone(m: nat, x: nat, e: nat, r: nat, b: nat)
    requires m > 0 && (e > 0 ==> r < m) && (r * Pow(b, 0)) % m == Pow(x, e) % m
    requires e == 0 ==> r == 1
    ensures r == PowMod(m, x, e)
  {
    if e > 0 {
      DivUnique(r, m, 0, r);
    }
  }

  /** One round of safe_pow keeps result * base_^exp modulo M. */
  lemma SafePowStep(m: nat, tBits: nat, x: nat, e: nat, r: nat, b: nat, k: nat)
    requires 0 < m < U64 && (tBits < 64 ==> m <= U32)
    requires b < m && r <= m && k > 0 && (r * Pow(b, k)) % m == Pow(x, e) % m
    ensures var r' := if k % 2 == 1 then MulMod(m, tBits, r, b) else r;
      r' <= m && (k / 2 == 0 ==> r' < m) && (r' * Pow(MulMod(m, 64, b, b), k / 2)) % m == Pow(x, e) % m
  {
    PowStep(m, r, b, k);
    MulModExact(m, tBits, r, b);
    MulModExact(m, 64, b, b);
  }

  // integer_module_group<N>

  /** integer_module_group(value) for a value of the storage type: the value
    * reduced modulo N. */
  function Make(n: nat, v: nat): (r: nat)
    requires Modulus(n) && v < Limit(Width(n))
    ensures r < n && (v < n ==> r == v)
  {
    ModSmall(v, n);
    v % n
  }

  /** integer_module_group(value) for any other integer of at most 64 bits:
    * `value % N` converts the value to size_t first. */
  function MakeFrom(n: nat, v: int): (r: nat)
    requires Modulus(n) && -(U64 as int) / 2 <= v < U64
    ensures r < n && (0 <= v < n ==> r == v)
  {
    var u := Wrap(64, v);
    ModSmall(u, n);
    u % n
  }

  /** A value below twice the modulus reduces by at most one subtraction. */
  lemma ModOnce(v: nat, n: nat)
    requires n > 0 && v < 2 * n
    ensures v >= n ==> v % n == v - n
  {
    if v >= n {
      DivUnique(v, n, 1, v - n);
    }
  }

  /** +a: the value itself. */
  function GroupPos(n: nat, a: nat): (r: nat)
    requires Modulus(n) && a < n
    ensures r == a
  {
    Make(n, a)
  }

  /** -a: `N - a` is a size_t, so the template constructor reduces it. */
  function GroupNeg(n: nat, a: nat): (r: nat)
    requires Modulus(n) && a < n
    ensures r < n && (a == 0 ==> r == 0) && (a > 0 ==> r == n - a)
  {
    DivUnique(n, n, 1, 0);
    MakeFrom(n, n - a)
  }

  /** a + b: the sum is formed in the storage type, where it never wraps. */
  function GroupAdd(n: nat, a: nat, b: nat): (r: nat)
    requires Modulus(n) && a < n && b < n
    ensures r < n && (a + b < n ==> r == a + b) && (a + b >= n ==> r == a + b - n)
  {
    var w := Width(n);
    ModOnce(a + b, n);
    Make(n, Wrap(w, a + b))
  }

  /** a - b as written: the difference is formed in the unsigned storage
    * type, so for a < b it wraps modulo 2^w before it is reduced. */
  function GroupSubAsWritten(n: nat, a: nat, b: nat): (r: nat)
    requires Modulus(n) && a < n && b < n
    ensures r < n && (a >= b ==> r == a - b)
  {
    Make(n, Wrap(Width(n), a - b))
  }

  /** In integer_module_group<7>, 0 - 1 as written is 3, and 3 + 1 is not 0. */
  lemma GroupSubWraps()
    ensures Modulus(7) && Width(7) == 32
    ensures GroupSubAsWritten(7, 0, 1) == 3 && GroupAdd(7, GroupSubAsWritten(7, 0, 1), 1) != 0
  {
    assert Wrap(32, -1) == U32 - 1;
    assert (U32 - 1) % 7 == 3;
  }

  /** a - b as evidently intended: a plus the negation of b. */
  function GroupSub(n: nat, a: nat, b: nat): (r: nat)
    requires Modulus(n) && a < n && b < n
    ensures r < n && (a >= b ==> r == a - b) && (a < b ==> r == a + n - b)
  {
    GroupAdd(n, a, GroupNeg(n, b))
  }

  /** a * b, which exists for a modulus is_prime accepts: mul_mod then the
    * reduction. */
  function GroupMul(n: nat, a: nat, b: nat): (r: nat)
    requires Modulus(n) && NoSmallFactor(n) && a < n && b < n
    ensures r == (a * b) % n
  {
    var w := Width(n);
    MulModExact(n, w, a, b);
    Make(n, MulMod(n, w, a, b))
  }

  /** structure_traits<integer_module_group<N>>::unit() and one(). */
  function GroupUnit(n: nat): (r: nat)
    requires Modulus(n)
    ensures r == 0
  {
    Make(n, 0)
  }

  function GroupOne(n: nat): (r: nat)
    requires Modulus(n)
    ensures n > 1 ==> r == 1
    ensures n == 1 ==> r == 0
  {
    DivUnique(1, n, if n == 1 then 1 else 0, if n == 1 then 0 else 1);
    Make(n, 1)
  }

  /** The group laws of addition modulo N: commutative, associative, unit()
    * the identity, unary minus the inverse, and subtraction undoing
    * addition. */
  lemma GroupLaws(n: nat, a: nat, b: nat, c: nat)
    requires Modulus(n) && a < n && b < n && c < n
    ensures GroupAdd(n, a, b) == GroupAdd(n, b, a)
    ensures GroupAdd(n, GroupAdd(n, a, b), c) == GroupAdd(n, a, GroupAdd(n, b, c))
    ensures GroupAdd(n, GroupUnit(n), a) == a
    ensures GroupAdd(n, a, GroupNeg(n, a)) == GroupUnit(n)
    ensures GroupAdd(n, GroupSub(n, a, b), b) == a
  {
  }

  // integer_module_ring<N>

  /** A modulus integer_module_ring accepts: one integer_module_group
    * accepts, that is_prime accepts, and above 1 (a static_assert). */
  ghost predicate RingModulus(n: nat) {
    Modulus(n) && NoSmallFactor(n) && n > 1
  }

  /** +a: the value itself. */
  function RingPos(n: nat, a: nat): (r: nat)
    requires RingModulus(n) && a < n
    ensures r == a
  {
    Make(n, a)
  }

  /** a + b: the product modulo N. */
  function RingAdd(n: nat, a: nat, b: nat): (r: nat)
    requires RingModulus(n) && a < n && b < n
    ensures r == (a * b) % n
  {
    GroupMul(n, a, b)
  }

  /** -a: safe_pow(a, N - 2). */
  function RingNeg(n: nat, a: nat): (r: nat)
    requires RingModulus(n) && a < n
    ensures r == PowMod(n, a, n - 2)
  {
    var p := PowMod(n, a, n - 2);
    Make(n, p)
  }

  /** a - b: a plus the negation of b. */
  function RingSub(n: nat, a: nat, b: nat): (r: nat)
    requires RingModulus(n) && a < n && b < n
    ensures r < n
  {
    RingAdd(n, a, RingNeg(n, b))
  }

  /** structure_traits<integer_module_ring<N>>::unit() as written: 0, which
    * for the ring's + (multiplication) absorbs everything rather than
    * leaving it unchanged. */
  function RingUnitAsWritten(n: nat): (r: nat)
    requires RingModulus(n)
    ensures r == 0
  {
    Make(n, 0)
  }

  lemma RingUnitAbsorbs(n: nat, a: nat)
    requires RingModulus(n) && a < n
    ensures RingAdd(n, RingUnitAsWritten(n), a) == 0
    ensures RingAdd(n, RingUnitAsWritten(n), 1) != 1
  {
  }

  /** The identity of the ring's +, which the default constructor's value 1
    * also is: the evidently intended unit(). */
  function RingUnit(n: nat): (r: nat)
    requires RingModulus(n)
    ensures r == 1
  {
    DivUnique(1, n, 0, 1);
    Make(n, 1)
  }

  /** The ring's + is commutative and associative, with unit 1. */
  lemma RingLaws(n: nat, a: nat, b: nat, c: nat)
    requires RingModulus(n) && a < n && b < n && c < n
    ensures RingAdd(n, a, b) == RingAdd(n, b, a)
    ensures RingAdd(n, RingAdd(n, a, b), c) == RingAdd(n, a, RingAdd(n, b, c))
    ensures RingAdd(n, RingUnit(n), a) == a
  {
    assert a * b == b * a;
    var ab, bc := RingAdd(n, a, b), RingAdd(n, b, c);
    MulModAssoc(n, a, b, c);
    assert RingAdd(n, ab, c) == (ab * c) % n;
    assert RingAdd(n, a, bc) == (a * bc) % n;
    assert 1 * a == a;
    ModSmall(a, n);
  }

  /** Multiplication modulo m is associative. */
  lemma MulModAssoc(m: nat, a: nat, b: nat, c: nat)
    requires m > 0
    ensures (((a * b) % m) * c) % m == (a * ((b * c) % m)) % m
  {
    ModMulLeft(a * b, c, m);
    ModMulRight(a, b * c, m);
    MulAssoc(a, b, c);
  }

  /** Unary minus is the inverse of the ring's +: by Fermat's little theorem
    * a^(N-2) times a is 1 modulo the prime N. */
  lemma RingInverse(n: nat, a: nat)
    requires RingModulus(n) && 0 < a < n
    ensures RingAdd(n, a, RingNeg(n, a)) == RingUnit(n)
  {
    NoSmallFactorPrime(n);
    ModSmall(a, n);
    ModSmall(1, n);
    if n > 2 {
      Fermat(n, a);
      ModMulRight(a, Pow(a, n - 2), n);
      assert a * Pow(a, n - 2) == Pow(a, n - 1);
    }
  }

  /** Subtraction undoes the ring's +. */
  lemma RingSubAdd(n: nat, a: nat, b: nat)
    requires RingModulus(n) && a < n && 0 < b < n
    ensures RingAdd(n, RingSub(n, a, b), b) == a
  {
    var i := RingNeg(n, b);
    RingInverse(n, b);
    MulModAssoc(n, a, i, b);
    assert i * b == b * i;
    ModSmall(a, n);
  }

  /** The static_asserts: 2 + 2 is 1 in integer_module_ring<3> and the
    * negation of 3 in integer_module_ring<7> is 5. */
  lemma RingExamples()
    ensures RingModulus(3) && RingModulus(7)
    ensures RingAdd(3, 2, 2) == 1 && RingNeg(7, 3) == 5
  {
  }

  // the compound assignments, which replace *this

  /** An integer_module_group<N> object, whose +=, -= and *= overwrite its
    * value. */
  class ModuleGroup {
    const n: nat
    var value: nat

    ghost predicate Valid()
      reads this
    {
      Modulus(n) && value < n
    }

    /** integer_module_group(value), 0 by default. */
    constructor (n: nat, v: nat)
      requires Modulus(n) && v < Limit(Width(n))
      ensures Valid() && this.n == n && value == v % n
    {
      this.n := n;
      value := Make(n, v);
    }

    method AddAssign(b: nat)
      requires Valid() && b < n
      modifies this
      ensures Valid() && value == GroupAdd(n, old(value), b)
    {
      value := GroupAdd(n, value, b);
    }

    /** -=, with the intended subtraction (see GroupSubAsWritten). */
    method SubAssign(b: nat)
      requires Valid() && b < n
      modifies this
      ensures Valid() && value == GroupSub(n, old(value), b)
      ensures GroupAdd(n, value, b) == old(value)
    {
      value := GroupSub(n, value, b);
      GroupLaws(n, old(value), b, 0);
    }

    method MulAssign(b: nat)
      requires Valid() && NoSmallFactor(n) && b < n
      modifies this
      ensures Valid() && value == (old(value) * b) % n
    {
      value := GroupMul(n, value, b);
    }
  }

  /** An integer_module_ring<N> object, whose += and -= overwrite its value. */
  class ModuleRing {
    const n: nat
    var value: nat

    ghost predicate Valid()
      reads this
    {
      RingModulus(n) && value < n
    }

    /** integer_module_ring(value), 1 by default. */
    constructor (n: nat, v: nat)
      requires RingModulus(n) && v < Limit(Width(n))
      ensures Valid() && this.n == n && value == v % n
    {
      this.n := n;
      value := Make(n, v);
    }

    method AddAssign(b: nat)
      requires Valid() && b < n
      modifies this
      ensures Valid() && value == (old(value) * b) % n
    {
      value := RingAdd(n, value, b);
    }

    method SubAssign(b: nat)
      requires Valid() && b < n
      modifies this
      ensures Valid() && value == RingSub(n, old(value), b)
      ensures b > 0 ==> RingAdd(n, value, b) == old(value)
    {
      value := RingSub(n, value, b);
      if b > 0 {
        RingSubAdd(n, old(value), b);
      }
    }
  }
}
