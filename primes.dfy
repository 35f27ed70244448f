/**
 * The number theory integer_module_ring relies on: powers and remainders,
 * Euclid's lemma and Fermat's little theorem, which makes a^(p-2) the
 * inverse of a modulo a prime p.
 */
module Primes {
  import opened Bits

  /** x^e. */
  function Pow(x: nat, e: nat): nat {
    if e == 0 then 1 else x * Pow(x, e - 1)
  }

  /** A prime: at least 2 and divisible by nothing strictly between 1 and itself. */
  ghost predicate Prime(n: nat) {
    n >= 2 && forall d: nat | 2 <= d < n :: n % d != 0
  }

  // remainders

  /** A value below the modulus is its own residue. */
  lemma ModSmall(v: nat, n: nat)
    requires n > 0
    ensures v < n ==> v % n == v
  {
    if v < n {
      DivUnique(v, n, 0, v);
    }
  }

  /** Adding a multiple of m does not change the remainder. */
  lemma ModAddMul(x: nat, k: nat, m: nat)
    requires m > 0
    ensures (x + m * k) % m == x % m
  {
    assert x == (x / m) * m + x % m;
    assert x + m * k == (x / m + k) * m + x % m;
    DivUnique(x + m * k, m, x / m + k, x % m);
  }

  /** A factor can be reduced modulo m before multiplying. */
  lemma ModMulLeft(a: nat, b: nat, m: nat)
    requires m > 0
    ensures (a * b) % m == ((a % m) * b) % m
  {
    var q := a / m;
    assert a == (a % m) + m * q;
    assert a * b == (a % m) * b + m * (q * b);
    ModAddMul((a % m) * b, q * b, m);
  }

  lemma ModMulRight(a: nat, b: nat, m: nat)
    requires m > 0
    ensures (a * b) % m == (a * (b % m)) % m
  {
    ModMulLeft(b, a, m);
  }

  /** A multiple of m times anything is a multiple of m. */
  lemma ModZeroMul(a: nat, b: nat, m: nat)
    requires m > 0 && a % m == 0
    ensures (a * b) % m == 0
  {
    ModMulLeft(a, b, m);
  }

  /** Adding y leaves the remainder of x unchanged only when y is a multiple
    * of m. */
  lemma ModSubZero(x: nat, y: nat, m: nat)
    requires m > 0 && (x + y) % m == x % m
    ensures y % m == 0
  {
    var qx, rx := x / m, x % m;
    var qy, ry := y / m, y % m;
    assert x == qx * m + rx;
    assert y == qy * m + ry;
    SumSplit(qx, qy, m, rx, ry);
    if rx + ry < m {
      DivUnique(x + y, m, qx + qy, rx + ry);
    } else {
      Carry(qx + qy, m, rx + ry);
      DivUnique(x + y, m, qx + qy + 1, rx + ry - m);
    }
  }

  lemma SumSplit(qx: nat, qy: nat, m: nat, rx: nat, ry: nat)
    ensures (qx * m + rx) + (qy * m + ry) == (qx + qy) * m + (rx + ry)
  {
  }

  lemma Carry(q: nat, m: nat, r: nat)
    requires r >= m
    ensures q * m + r == (q + 1) * m + (r - m)
  {
  }

  /** Reducing the base modulo m does not change a power modulo m. */
  lemma {:induction false} PowModBase(y: nat, q: nat, m: nat)
    requires m > 0
    ensures Pow(y % m, q) % m == Pow(y, q) % m
    decreases q
  {
    if q > 0 {
      PowModBase(y, q - 1, m);
      calc {
        Pow(y % m, q) % m;
        ((y % m) * Pow(y % m, q - 1)) % m;
        { ModMulRight(y % m, Pow(y % m, q - 1), m); }
        ((y % m) * (Pow(y % m, q - 1) % m)) % m;
        ((y % m) * (Pow(y, q - 1) % m)) % m;
        { ModMulRight(y % m, Pow(y, q - 1), m); }
        ((y % m) * Pow(y, q - 1)) % m;
        { ModMulLeft(y, Pow(y, q - 1), m); }
        (y * Pow(y, q - 1)) % m;
      }
    }
  }

  /** (y * y)^q is y^(2q). */
  lemma {:induction false} PowDouble(y: nat, q: nat)
    ensures Pow(y * y, q) == Pow(y, 2 * q)
    decreases q
  {
    if q > 0 {
      PowDouble(y, q - 1);
      assert Pow(y, 2 * q) == y * (y * Pow(y, 2 * q - 2));
    }
  }

  // Euclid's lemma

  lemma Distrib(q: nat, m: nat, r: nat, b: nat)
    ensures (q * m + r) * b == q * (m * b) + r * b
  {
  }

  lemma MulComm3(q: nat, k: nat, p: nat)
    ensures q * (k * p) == p * (q * k)
  {
  }

  /** c * b is a multiple of p. */
  predicate Multiple(p: nat, b: nat, c: nat)
    requires p > 0
  {
    (c * b) % p == 0
  }

  /** The least positive c whose product with b is a multiple of p. */
  lemma {:induction false} LeastMultiple(p: nat, b: nat, c: nat) returns (m: nat)
    requires p > 0 && c >= 1 && Multiple(p, b, c)
    ensures 1 <= m <= c && Multiple(p, b, m)
    ensures forall d: nat | 1 <= d < m :: !Multiple(p, b, d)
    decreases c
  {
    if exists d: nat :: 1 <= d < c && Multiple(p, b, d) {
      var d: nat :| 1 <= d < c && Multiple(p, b, d);
      m := LeastMultiple(p, b, d);
    } else {
      m := c;
    }
  }

  /** The least such c divides p. */
  lemma LeastDivides(p: nat, b: nat, m: nat)
    requires p > 0 && m >= 1 && Multiple(p, b, m)
    requires forall d: nat | 1 <= d < m :: !Multiple(p, b, d)
    ensures p % m == 0
  {
    var q, r := p / m, p % m;
    assert p == q * m + r;
    var k := (m * b) / p;
    assert m * b == k * p + (m * b) % p;
    RemainderMultiple(p, b, m, q, r, k);
    assert Multiple(p, b, r);
  }

  /** With p = q * m + r and m * b = k * p, r * b is a multiple of p too. */
  lemma RemainderMultiple(p: nat, b: nat, m: nat, q: nat, r: nat, k: nat)
    requires p > 0 && p == q * m + r && m * b == k * p
    ensures (r * b) % p == 0
  {
    assert p * b == r * b + p * (q * k) by {
      Distrib(q, m, r, b);
      MulComm3(q, k, p);
    }
    ModAddMul(r * b, q * k, p);
    DivUnique(p * b, p, b, 0);
  }

  /** Euclid's lemma: a prime dividing a product divides a factor. */
  lemma Euclid(p: nat, a: nat, b: nat)
    requires Prime(p) && (a * b) % p == 0
    ensures a % p == 0 || b % p == 0
  {
    var a' := a % p;
    if a' != 0 {
      ModMulLeft(a, b, p);
      assert Multiple(p, b, a');
      var m := LeastMultiple(p, b, a');
      LeastDivides(p, b, m);
      assert m == 1;
      assert (1 * b) % p == 0;
    }
  }

  /** No factor below a prime p gives a product that p divides. */
  lemma EuclidBelow(p: nat, a: nat, b: nat)
    requires Prime(p) && 0 < a < p && 0 < b < p
    ensures (a * b) % p != 0
  {
    if (a * b) % p == 0 {
      Euclid(p, a, b);
      ModSmall(a, p);
      ModSmall(b, p);
    }
  }

  /** Equal multiples of r and s by an f that p does not divide give r == s
    * below p. */
  lemma Cancel(p: nat, r: nat, s: nat, f: nat)
    requires Prime(p) && r < p && s < p && f % p != 0 && (r * f) % p == (s * f) % p
    ensures r == s
  {
    if r > s {
      CancelAbove(p, r, s, f);
    } else if s > r {
      CancelAbove(p, s, r, f);
    }
  }

  lemma CancelAbove(p: nat, r: nat, s: nat, f: nat)
    requires Prime(p) && s < r < p && (r * f) % p == (s * f) % p
    ensures f % p == 0
  {
    var d := r - s;
    assert r * f == s * f + d * f by {
      Distrib(1, d, s, f);
    }
    ModSubZero(s * f, d * f, p);
    Euclid(p, d, f);
    ModSmall(d, p);
  }

  // products

  lemma MulAssoc(a: nat, b: nat, c: nat)
    ensures (a * b) * c == a * (b * c)
  {
  }

  lemma MulSwap(a: nat, x: nat, c: nat, z: nat)
    ensures ((a * x) * c) * z == ((a * z) * c) * x
  {
  }

  lemma ProdOne(x: nat)
    ensures Prod([x]) == x
  {
    assert [x][..0] == [];
  }

  /** The product of a sequence. */
  function Prod(s: seq<nat>): nat {
    if s == [] then 1 else Prod(s[..|s| - 1]) * s[|s| - 1]
  }

  /** k!. */
  function Fact(k: nat): nat {
    if k == 0 then 1 else Fact(k - 1) * k
  }

  lemma {:induction false} ProdConcat(s: seq<nat>, t: seq<nat>)
    ensures Prod(s + t) == Prod(s) * Prod(t)
    decreases |t|
  {
    if t == [] {
      assert s + t == s;
    } else {
      var t' := t[..|t| - 1];
      var x := t[|t| - 1];
      assert (s + t)[..|s + t| - 1] == s + t';
      assert Prod(s + t) == Prod(s + t') * x;
      ProdConcat(s, t');
      MulAssoc(Prod(s), Prod(t'), x);
    }
  }

  /** A product of factors below a prime p is not a multiple of p. */
  lemma {:induction false} FactNotMultiple(p: nat, k: nat)
    requires Prime(p) && k < p
    ensures Fact(k) % p != 0
    decreases k
  {
    if k == 0 {
      ModSmall(1, p);
    } else {
      FactNotMultiple(p, k - 1);
      if (Fact(k - 1) * k) % p == 0 {
        Euclid(p, Fact(k - 1), k);
        ModSmall(k, p);
      }
    }
  }

  /** No two entries of s are equal. */
  ghost predicate Distinct(s: seq<nat>) {
    forall i, j | 0 <= i < j < |s| :: s[i] != s[j]
  }

  /** Every entry of s lies in 1..n. */
  ghost predicate Within(s: seq<nat>, n: nat) {
    forall i | 0 <= i < |s| :: 1 <= s[i] <= n
  }

  /** Taking out the entry at j by moving the last entry there keeps the
    * rest of the product. */
  lemma TakeOut(s: seq<nat>, j: nat)
    requires j < |s|
    ensures Prod(s) == Prod(s[j := s[|s| - 1]][..|s| - 1]) * s[j]
  {
    var n := |s|;
    if j < n - 1 {
      var u, x, w, z := s[..j], s[j], s[j + 1..n - 1], s[n - 1];
      Pieces(s, j, u, x, w, z);
      ProdPieces(u, x, w, z);
    } else {
      assert s[j := s[n - 1]][..n - 1] == s[..n - 1];
    }
  }

  /** s cut around j and its last entry, before and after the move. */
  lemma Pieces(s: seq<nat>, j: nat, u: seq<nat>, x: nat, w: seq<nat>, z: nat)
    requires j < |s| - 1
    requires u == s[..j] && x == s[j] && w == s[j + 1..|s| - 1] && z == s[|s| - 1]
    ensures s == ((u + [x]) + w) + [z]
    ensures s[j := z][..|s| - 1] == (u + [z]) + w
  {
    var n := |s|;
    assert s[..j + 1] == u + [x];
    assert s[..n - 1] == (u + [x]) + w;
  }

  lemma ProdPieces(u: seq<nat>, x: nat, w: seq<nat>, z: nat)
    ensures Prod(((u + [x]) + w) + [z]) == Prod((u + [z]) + w) * x
  {
    ProdConcat((u + [x]) + w, [z]);
    ProdConcat(u + [x], w);
    ProdConcat(u, [x]);
    ProdConcat(u + [z], w);
    ProdConcat(u, [z]);
    ProdOne(x);
    ProdOne(z);
    MulSwap(Prod(u), x, Prod(w), z);
  }

  /** Pigeonhole: n distinct entries from 1..n are 1..n in some order, so
    * they hold every value and multiply to n!. */
  lemma {:induction false} DistinctProd(s: seq<nat>, n: nat)
    requires |s| == n && Distinct(s) && Within(s, n)
    ensures forall v | 1 <= v <= n :: v in s
    ensures Prod(s) == Fact(n)
    decreases n
  {
    if n > 0 {
      if n !in s {
        DistinctPrefix(s, n);
        var last := s[n - 1] in s[..n - 1];
        DistinctProd(s[..n - 1], n - 1);
        assert false;
      }
      var j :| 0 <= j < n && s[j] == n;
      var t := s[j := s[n - 1]][..n - 1];
      DistinctTakeOut(s, n, j);
      DistinctProd(t, n - 1);
      TakeOut(s, j);
      HoldsAll(s, n, j, t);
    }
  }

  /** Without n, the first n - 1 entries lie in 1..n - 1. */
  lemma DistinctPrefix(s: seq<nat>, n: nat)
    requires |s| == n > 0 && Distinct(s) && Within(s, n) && n !in s
    ensures Distinct(s[..n - 1]) && Within(s[..n - 1], n - 1)
  {
  }

  /** Moving the last entry into the place of n leaves n - 1 distinct entries
    * in 1..n - 1. */
  lemma DistinctTakeOut(s: seq<nat>, n: nat, j: nat)
    requires |s| == n && Distinct(s) && Within(s, n) && j < n && s[j] == n
    ensures Distinct(s[j := s[n - 1]][..n - 1]) && Within(s[j := s[n - 1]][..n - 1], n - 1)
  {
    var t := s[j := s[n - 1]][..n - 1];
    forall i | 0 <= i < n - 1
      ensures 1 <= t[i] <= n - 1
    {
      if i == j {
        assert t[i] == s[n - 1];
      }
    }
    forall a, b | 0 <= a < b < n - 1
      ensures t[a] != t[b]
    {
      if a == j {
        assert t[a] == s[n - 1] && t[b] == s[b];
      } else if b == j {
        assert t[b] == s[n - 1] && t[a] == s[a];
      }
    }
  }

  /** If those n - 1 entries hold every value of 1..n - 1, s holds every
    * value of 1..n. */
  lemma HoldsAll(s: seq<nat>, n: nat, j: nat, t: seq<nat>)
    requires |s| == n && j < n && s[j] == n && t == s[j := s[n - 1]][..n - 1]
    requires forall v | 1 <= v <= n - 1 :: v in t
    ensures forall v | 1 <= v <= n :: v in s
  {
    forall v | 1 <= v <= n
      ensures v in s
    {
      if v < n {
        assert v in t;
        var i :| 0 <= i < n - 1 && t[i] == v;
        if i == j {
          assert s[n - 1] == v;
        } else {
          assert s[i] == v;
        }
      }
    }
  }

  // Fermat's little theorem

  /** a * 1, a * 2, ..., a * k, each modulo p. */
  function Scaled(a: nat, p: nat, k: nat): (s: seq<nat>)
    requires p > 0
    ensures |s| == k
  {
    seq(k, i requires 0 <= i => (a * (i + 1)) % p)
  }

  /** Their product is a^k * k! modulo p. */
  lemma {:induction false} ScaledProd(a: nat, p: nat, k: nat)
    requires p > 0
    ensures Prod(Scaled(a, p, k)) % p == (Pow(a, k) * Fact(k)) % p
    decreases k
  {
    if k > 0 {
      var s := Scaled(a, p, k);
      assert s[..k - 1] == Scaled(a, p, k - 1);
      ScaledProd(a, p, k - 1);
      ScaledStep(Prod(Scaled(a, p, k - 1)), Pow(a, k - 1), Fact(k - 1), a, k, p);
    }
  }

  lemma ScaledStep(x: nat, e: nat, f: nat, a: nat, k: nat, p: nat)
    requires p > 0 && x % p == (e * f) % p
    ensures (x * ((a * k) % p)) % p == ((a * e) * (f * k)) % p
  {
    var y := (a * k) % p;
    calc {
      (x * y) % p;
      { ModMulLeft(x, y, p); }
      ((x % p) * y) % p;
      ((e * f) % p * y) % p;
      { ModMulLeft(e * f, y, p); }
      ((e * f) * y) % p;
      { ModMulRight(e * f, a * k, p); }
      ((e * f) * (a * k)) % p;
      { MulRearrange(e, f, a, k); }
      ((a * e) * (f * k)) % p;
    }
  }

  lemma MulRearrange(e: nat, f: nat, a: nat, k: nat)
    ensures (e * f) * (a * k) == (a * e) * (f * k)
  {
  }

  /** For a not a multiple of a prime p, the scaled residues a * 1 .. a *
    * (p - 1) are distinct and nonzero. */
  lemma ScaledDistinct(a: nat, p: nat)
    requires Prime(p) && a % p != 0
    ensures Distinct(Scaled(a, p, p - 1)) && Within(Scaled(a, p, p - 1), p - 1)
  {
    var s := Scaled(a, p, p - 1);
    forall i | 0 <= i < p - 1
      ensures 1 <= s[i] <= p - 1
    {
      ScaledNonzero(a, p, i + 1);
    }
    forall i, j | 0 <= i < j < p - 1
      ensures s[i] != s[j]
    {
      ScaledApart(a, p, i + 1, j + 1);
    }
  }

  lemma ScaledNonzero(a: nat, p: nat, c: nat)
    requires Prime(p) && a % p != 0 && 0 < c < p
    ensures (a * c) % p != 0
  {
    ModSmall(c, p);
    if (a * c) % p == 0 {
      Euclid(p, a, c);
    }
  }

  lemma ScaledApart(a: nat, p: nat, c: nat, d: nat)
    requires Prime(p) && a % p != 0 && 0 < c < d < p
    ensures (a * c) % p != (a * d) % p
  {
    ModSmall(d - c, p);
    if (a * c) % p == (a * d) % p {
      assert a * d == a * c + a * (d - c);
      ModSubZero(a * c, a * (d - c), p);
      Euclid(p, a, d - c);
    }
  }

  /** Fermat's little theorem: a^(p-1) is 1 modulo a prime p that does not
    * divide a. */
  lemma Fermat(p: nat, a: nat)
    requires Prime(p) && a % p != 0
    ensures Pow(a, p - 1) % p == 1
  {
    var s := Scaled(a, p, p - 1);
    ScaledDistinct(a, p);
    DistinctProd(s, p - 1);
    ScaledProd(a, p, p - 1);
    var f := Fact(p - 1);
    FactNotMultiple(p, p - 1);
    ModMulLeft(Pow(a, p - 1), f, p);
    ModSmall(1, p);
    Cancel(p, Pow(a, p - 1) % p, 1, f);
  }
}
