/**
 * The Cartesian product of tuples of template/tuple_product.cpp. A tuple is
 * a sequence of components (their C++ types are not modelled). The product
 * type is built by tag_mul, the first tuple varying slowest; element k of
 * the product takes from the i-th tuple the component at the i-th digit of
 * k written in the mixed radix of the tuple sizes (make_ctor_array).
 */
module TupleProduct {

  // the product shape: tuple_product_aux and tag_mul

  /** The number of elements of a product of tuples of these sizes. */
  function Volume(dims: seq<nat>): nat {
    if dims == [] then 1 else dims[0] * Volume(dims[1..])
  }

  /** tuple_size of each tuple. */
  function Sizes<T>(tuples: seq<seq<T>>): (r: seq<nat>)
    ensures |r| == |tuples| && forall i | 0 <= i < |tuples| :: r[i] == |tuples[i]|
  {
    seq(|tuples|, i requires 0 <= i < |tuples| => |tuples[i]|)
  }

  /** tag_mul: the first tuple's components in order, each put in front of
    * every tuple of rest. */
  function TagMul<T>(first: seq<T>, rest: seq<seq<T>>): (r: seq<seq<T>>)
    ensures |r| == |first| * |rest|
  {
    if first == [] then [] else Prepend(first[0], rest) + TagMul(first[1..], rest)
  }

  /** The tuples of rest, each with x put in front. */
  function Prepend<T>(x: T, rest: seq<seq<T>>): (r: seq<seq<T>>)
    ensures |r| == |rest|
  {
    if rest == [] then [] else [[x] + rest[0]] + Prepend(x, rest[1..])
  }

  lemma {:induction false} PrependIndex<T>(x: T, rest: seq<seq<T>>, b: nat)
    requires b < |rest|
    ensures Prepend(x, rest)[b] == [x] + rest[b]
    decreases b
  {
    if b > 0 {
      PrependIndex(x, rest[1..], b - 1);
    }
  }

  /** tuple_product_t: one empty tuple for no tuples, else tag_mul of the
    * first with the product of the others. */
  function Product<T>(tuples: seq<seq<T>>): seq<seq<T>> {
    if tuples == [] then [[]] else TagMul(tuples[0], Product(tuples[1..]))
  }

  lemma MulStep(a: nat, m: nat, b: nat)
    ensures (a + 1) * m + b == a * m + (m + b)
  {
  }

  /** Entry a * |rest| + b of tag_mul is component a before tuple b. */
  lemma {:induction false} TagMulIndex<T>(first: seq<T>, rest: seq<seq<T>>, a: nat, b: nat)
    requires a < |first| && b < |rest|
    ensures a * |rest| + b < |TagMul(first, rest)|
    ensures TagMul(first, rest)[a * |rest| + b] == [first[a]] + rest[b]
    decreases a
  {
    MulBelow(a, |first|, |rest|, b);
    if a == 0 {
      PrependIndex(first[0], rest, b);
    } else {
      var m, j := |rest|, (a - 1) * |rest| + b;
      MulNat(a - 1, m);
      TagMulIndex(first[1..], rest, a - 1, b);
      MulStep(a - 1, m, b);
      assert a * m + b == m + j;
      var head, tail := Prepend(first[0], rest), TagMul(first[1..], rest);
      assert TagMul(first, rest) == head + tail;
      AppendAt(head, tail, j, a * m + b);
    }
  }

  lemma MulNat(x: nat, y: nat)
    ensures x * y >= 0
  {
  }

  lemma AppendAt<T>(u: seq<T>, v: seq<T>, j: nat, k: nat)
    requires j < |v| && k == |u| + j
    ensures k < |u + v| && (u + v)[k] == v[j]
  {
  }

  /** a * m + b stays below n * m when a < n and b < m. */
  lemma MulBelow(a: nat, n: nat, m: nat, b: nat)
    requires a < n && b < m
    ensures a * m + b < n * m
  {
    assert (a + 1) * m <= n * m;
  }

  /** The product has one element per combination: the product of the
    * sizes. */
  lemma {:induction false} ProductSize<T>(tuples: seq<seq<T>>)
    ensures |Product(tuples)| == Volume(Sizes(tuples))
    decreases |tuples|
  {
    if tuples != [] {
      var m := |Product(tuples[1..])|;
      ProductSize(tuples[1..]);
      assert Sizes(tuples)[1..] == Sizes(tuples[1..]);
      assert Volume(Sizes(tuples)) == |tuples[0]| * m;
    }
  }

  /** Each element of the product has one component per tuple. */
  lemma {:induction false} ProductWidth<T>(tuples: seq<seq<T>>)
    ensures forall k | 0 <= k < |Product(tuples)| :: |Product(tuples)[k]| == |tuples|
    decreases |tuples|
  {
    if tuples != [] {
      ProductWidth(tuples[1..]);
      TagMulWidth(tuples[0], Product(tuples[1..]), |tuples| - 1);
    }
  }

  lemma {:induction false} PrependWidth<T>(x: T, rest: seq<seq<T>>, w: nat)
    requires forall k | 0 <= k < |rest| :: |rest[k]| == w
    ensures forall k | 0 <= k < |rest| :: |Prepend(x, rest)[k]| == w + 1
  {
    forall k | 0 <= k < |rest|
      ensures |Prepend(x, rest)[k]| == w + 1
    {
      PrependIndex(x, rest, k);
    }
  }

  lemma {:induction false} TagMulWidth<T>(first: seq<T>, rest: seq<seq<T>>, w: nat)
    requires forall k | 0 <= k < |rest| :: |rest[k]| == w
    ensures forall k | 0 <= k < |TagMul(first, rest)| :: |TagMul(first, rest)[k]| == w + 1
    decreases |first|
  {
    if first != [] {
      PrependWidth(first[0], rest, w);
      TagMulWidth(first[1..], rest, w);
    }
  }

  lemma DivBelow(k: nat, m: nat, n: nat)
    requires k < n * m
    ensures m > 0 && k / m < n && k == (k / m) * m + k % m
  {
    MulZero(n, m);
    MulMono(n, k / m, m);
  }

  lemma MulZero(n: nat, m: nat)
    ensures m == 0 ==> n * m == 0
  {
  }

  lemma MulMono(a: int, b: int, m: nat)
    ensures a <= b ==> a * m <= b * m
  {
  }

  /** The product of no tuples is a single empty tuple. */
  lemma ProductOfNone<T>()
    ensures Product<T>([]) == [[]]
  {
  }

  /** A product with an empty factor is empty. */
  lemma ProductEmptyFactor<T>(tuples: seq<seq<T>>, i: nat)
    requires i < |tuples| && tuples[i] == []
    ensures Product(tuples) == []
  {
    ProductSize(tuples);
    VolumeZero(Sizes(tuples), i);
  }

  lemma {:induction false} VolumeZero(dims: seq<nat>, i: nat)
    requires i < |dims| && dims[i] == 0
    ensures Volume(dims) == 0
    decreases i
  {
    if i > 0 {
      VolumeZero(dims[1..], i - 1);
    }
  }

  /** A non-empty product has no empty factor. */
  lemma {:induction false} VolumePositive(dims: seq<nat>, i: nat)
    requires Volume(dims) > 0 && i < |dims|
    ensures dims[i] > 0
  {
    if dims[i] == 0 {
      VolumeZero(dims, i);
    }
  }

  // mixed-radix digits

  /** No dimension is zero. */
  predicate Positive(dims: seq<nat>) {
    forall i | 0 <= i < |dims| :: dims[i] > 0
  }

  /** Each digit is below its dimension. */
  predicate InRange(d: seq<nat>, dims: seq<nat>) {
    |d| == |dims| && forall i | 0 <= i < |d| :: d[i] < dims[i]
  }

  /** The index a digit vector stands for: the sum of each digit times the
    * product of the dimensions after it. */
  function Value(d: seq<nat>, dims: seq<nat>): nat
    requires |d| == |dims|
  {
    if d == [] then 0 else d[0] * Volume(dims[1..]) + Value(d[1..], dims[1..])
  }

  /** Digits in range stand for an index inside the product. */
  lemma {:induction false} ValueBelow(d: seq<nat>, dims: seq<nat>)
    requires InRange(d, dims)
    ensures Value(d, dims) < Volume(dims)
    decreases |d|
  {
    if d != [] {
      ValueBelow(d[1..], dims[1..]);
      MulBelow(d[0], dims[0], Volume(dims[1..]), Value(d[1..], dims[1..]));
    }
  }

  /** Element Value(d) of the product takes component d[i] from tuple i. */
  lemma {:induction false} ProductElement<T>(tuples: seq<seq<T>>, d: seq<nat>)
    requires InRange(d, Sizes(tuples))
    ensures Value(d, Sizes(tuples)) < |Product(tuples)|
    ensures Product(tuples)[Value(d, Sizes(tuples))] == seq(|tuples|, i requires 0 <= i < |tuples| => tuples[i][d[i]])
    decreases |tuples|
  {
    ProductSize(tuples);
    ValueBelow(d, Sizes(tuples));
    if tuples != [] {
      var dims := Sizes(tuples);
      var rest := Product(tuples[1..]);
      assert dims[1..] == Sizes(tuples[1..]);
      ProductElement(tuples[1..], d[1..]);
      ProductSize(tuples[1..]);
      TagMulIndex(tuples[0], rest, d[0], Value(d[1..], dims[1..]));
    }
  }

  /** Lexicographic order on digit vectors, the first digit deciding first. */
  predicate LexLess(d: seq<nat>, e: seq<nat>)
    requires |d| == |e|
  {
    d != [] && (d[0] < e[0] || (d[0] == e[0] && LexLess(d[1..], e[1..])))
  }

  /** Lexicographically smaller digits stand for a smaller index, so the
    * product lists its elements in lexicographic order, the first tuple
    * varying slowest. */
  lemma {:induction false} LexValue(d: seq<nat>, e: seq<nat>, dims: seq<nat>)
    requires InRange(d, dims) && InRange(e, dims) && LexLess(d, e)
    ensures Value(d, dims) < Value(e, dims)
    decreases |d|
  {
    var v := Volume(dims[1..]);
    if d[0] < e[0] {
      ValueBelow(d[1..], dims[1..]);
      MulLess(d[0], e[0], v, Value(d[1..], dims[1..]));
    } else {
      LexValue(d[1..], e[1..], dims[1..]);
    }
  }

  lemma MulLess(a: nat, b: nat, v: nat, r: nat)
    requires a < b && r < v
    ensures a * v + r < b * v
  {
    assert (a + 1) * v <= b * v;
  }

  /** Two different digit vectors are ordered one way or the other. */
  lemma {:induction false} LexTotal(d: seq<nat>, e: seq<nat>)
    requires |d| == |e| && d != e
    ensures LexLess(d, e) || LexLess(e, d)
    decreases |d|
  {
    if d[0] == e[0] {
      assert d == [d[0]] + d[1..] && e == [e[0]] + e[1..];
      LexTotal(d[1..], e[1..]);
    }
  }

  /** In range, the index order is exactly the lexicographic order of the
    * digits, and different digits stand for different indices. */
  lemma ValueOrder(d: seq<nat>, e: seq<nat>, dims: seq<nat>)
    requires InRange(d, dims) && InRange(e, dims)
    ensures Value(d, dims) < Value(e, dims) <==> LexLess(d, e)
    ensures Value(d, dims) == Value(e, dims) <==> d == e
  {
    if d != e {
      LexTotal(d, e);
      if LexLess(d, e) {
        LexValue(d, e, dims);
        LexAsym(d, e);
      } else {
        LexValue(e, d, dims);
      }
    }
  }

  lemma {:induction false} LexAsym(d: seq<nat>, e: seq<nat>)
    requires |d| == |e| && LexLess(d, e)
    ensures !LexLess(e, d)
    decreases |d|
  {
    if d[0] == e[0] {
      LexAsym(d[1..], e[1..]);
    }
  }

  // make_ctor_array

  function Reverse<T>(s: seq<T>): (r: seq<T>)
    ensures |r| == |s|
  {
    if s == [] then [] else Reverse(s[1..]) + [s[0]]
  }

  lemma {:induction false} ReverseIndex<T>(s: seq<T>)
    ensures forall i | 0 <= i < |s| :: Reverse(s)[i] == s[|s| - 1 - i]
    decreases |s|
  {
    if s != [] {
      ReverseIndex(s[1..]);
    }
  }

  /** The digits the loop of make_ctor_array produces on the reversed sizes:
    * least significant first. */
  function LowDigits(index: nat, rs: seq<nat>): (r: seq<nat>)
    requires Positive(rs)
    ensures |r| == |rs|
    decreases |rs|
  {
    if rs == [] then [] else [index % rs[0]] + LowDigits(index / rs[0], rs[1..])
  }

  /** make_ctor_array<idx, dims...>(). */
  function CtorDigits(idx: nat, dims: seq<nat>): (r: seq<nat>)
    requires Positive(dims)
    ensures |r| == |dims|
  {
    ReverseIndex(dims);
    Reverse(LowDigits(idx, Reverse(dims)))
  }

  /** The value of least-significant-first digits. */
  function LowValue(d: seq<nat>, rs: seq<nat>): nat
    requires |d| == |rs|
  {
    if d == [] then 0 else d[0] + rs[0] * LowValue(d[1..], rs[1..])
  }

  lemma {:induction false} LowDigitsValue(index: nat, rs: seq<nat>)
    requires Positive(rs)
    requires index < Volume(rs)
    ensures LowValue(LowDigits(index, rs), rs) == index
    decreases |rs|
  {
    if rs != [] {
      DivBelow(index, rs[0], Volume(rs[1..]));
      LowDigitsValue(index / rs[0], rs[1..]);
      var d := LowDigits(index, rs);
      assert d[1..] == LowDigits(index / rs[0], rs[1..]);
    }
  }

  lemma {:induction false} LowDigitsBelow(index: nat, rs: seq<nat>)
    requires Positive(rs)
    ensures forall i | 0 <= i < |rs| :: LowDigits(index, rs)[i] < rs[i]
    decreases |rs|
  {
    if rs != [] {
      LowDigitsBelow(index / rs[0], rs[1..]);
    }
  }

  lemma {:induction false} VolumeSnoc(s: seq<nat>, y: nat)
    ensures Volume(s + [y]) == Volume(s) * y
    decreases |s|
  {
    if s != [] {
      assert (s + [y])[1..] == s[1..] + [y];
      VolumeSnoc(s[1..], y);
    }
  }

  lemma {:induction false} VolumeReverse(s: seq<nat>)
    ensures Volume(Reverse(s)) == Volume(s)
    decreases |s|
  {
    if s != [] {
      VolumeReverse(s[1..]);
      VolumeSnoc(Reverse(s[1..]), s[0]);
    }
  }

  lemma {:induction false} ValueSnoc(u: seq<nat>, w: seq<nat>, x: nat, y: nat)
    requires |u| == |w|
    ensures Value(u + [x], w + [y]) == Value(u, w) * y + x
    decreases |u|
  {
    if u == [] {
      assert (w + [y])[1..] == [];
    } else {
      assert (u + [x])[1..] == u[1..] + [x];
      assert (w + [y])[1..] == w[1..] + [y];
      ValueSnoc(u[1..], w[1..], x, y);
      VolumeSnoc(w[1..], y);
      SnocArith(u[0], Volume(w[1..]), y, Value(u[1..], w[1..]), x);
    }
  }

  lemma SnocArith(a: nat, v: nat, y: nat, r: nat, x: nat)
    ensures a * (v * y) + (r * y + x) == (a * v + r) * y + x
  {
  }

  lemma {:induction false} ValueReverse(d: seq<nat>, rs: seq<nat>)
    requires |d| == |rs|
    ensures Value(Reverse(d), Reverse(rs)) == LowValue(d, rs)
    decreases |d|
  {
    if d != [] {
      ValueReverse(d[1..], rs[1..]);
      ValueSnoc(Reverse(d[1..]), Reverse(rs[1..]), d[0], rs[0]);
    }
  }

  /** make_ctor_array gives digits in range that stand for idx, for every
    * idx inside the product. */
  lemma CtorDigitsValue(idx: nat, dims: seq<nat>)
    requires Positive(dims)
    requires idx < Volume(dims)
    ensures InRange(CtorDigits(idx, dims), dims)
    ensures Value(CtorDigits(idx, dims), dims) == idx
  {
    var rs := Reverse(dims);
    ReverseIndex(dims);
    VolumeReverse(dims);
    var low := LowDigits(idx, rs);
    LowDigitsValue(idx, rs);
    LowDigitsBelow(idx, rs);
    ReverseIndex(low);
    ValueReverse(low, rs);
    ReverseTwice(dims);
    assert Reverse(rs) == dims;
  }

  lemma ReverseTwice(s: seq<nat>)
    ensures Reverse(Reverse(s)) == s
  {
    ReverseIndex(s);
    ReverseIndex(Reverse(s));
  }

  /** make_ctor_array is the inverse of Value: applied to the index of any
    * digits in range it gives those digits back. */
  lemma CtorDigitsOfValue(d: seq<nat>, dims: seq<nat>)
    requires InRange(d, dims) && Positive(dims)
    ensures Value(d, dims) < Volume(dims) && CtorDigits(Value(d, dims), dims) == d
  {
    ValueBelow(d, dims);
    CtorDigitsValue(Value(d, dims), dims);
    ValueOrder(CtorDigits(Value(d, dims), dims), d, dims);
  }

  /** std::ranges::reverse. */
  method ReverseInPlace(a: array<nat>)
    modifies a
    ensures a[..] == Reverse(old(a[..]))
  {
    ghost var s := a[..];
    var n := a.Length;
    var i := 0;
    while i + 1 < n - i
      invariant 0 <= i <= n - i
      invariant forall k | 0 <= k < i :: a[k] == s[n - 1 - k] && a[n - 1 - k] == s[k]
      invariant forall k | i <= k < n - i :: a[k] == s[k]
    {
      a[i], a[n - 1 - i] := a[n - 1 - i], a[i];
      i := i + 1;
    }
    ReverseIndex(s);
    assert forall k | 0 <= k < n :: a[k] == s[n - 1 - k];
  }

  /** One step of the digit loop: the lowest digit, then the rest of the
    * quotient. */
  lemma LowDigitsStep(index: nat, rs: seq<nat>, i: nat)
    requires Positive(rs) && i < |rs|
    ensures Positive(rs[i..]) && Positive(rs[i + 1..])
    ensures LowDigits(index, rs[i..]) == [index % rs[i]] + LowDigits(index / rs[i], rs[i + 1..])
  {
    assert rs[i..][1..] == rs[i + 1..];
  }

  lemma ReversePositive(dims: seq<nat>)
    requires Positive(dims)
    ensures Positive(Reverse(dims))
  {
    ReverseIndex(dims);
  }

  /** The loop of make_ctor_array: digit i is the index modulo size i,
    * and the index is divided by it before the next. */
  method PeelDigits(idx: nat, sizes: array<nat>) returns (result: array<nat>)
    requires Positive(sizes[..])
    ensures fresh(result) && result[..] == LowDigits(idx, sizes[..])
  {
    ghost var rs := sizes[..];
    result := new nat[sizes.Length];
    var index := idx;
    assert rs[0..] == rs;
    for i := 0 to sizes.Length
      invariant result[..i] + LowDigits(index, rs[i..]) == LowDigits(idx, rs)
    {
      LowDigitsStep(index, rs, i);
      ghost var done := result[..i];
      result[i] := index % sizes[i];
      assert result[..i + 1] == done + [index % rs[i]];
      index := index / sizes[i];
    }
    assert rs[sizes.Length..] == [];
    assert result[..sizes.Length] == result[..];
  }

  /** make_ctor_array: reverse the sizes, peel digits off the index least
    * significant first, reverse the digits. */
  method CtorArray(idx: nat, dims: seq<nat>) returns (result: array<nat>)
    requires Positive(dims)
    ensures fresh(result) && result[..] == CtorDigits(idx, dims)
  {
    var sizes := new nat[|dims|](i requires 0 <= i < |dims| => dims[i]);
    assert sizes[..] == dims;
    ReverseInPlace(sizes);
    ReversePositive(dims);
    result := PeelDigits(idx, sizes);
    ReverseInPlace(result);
  }

  // tuple_product

  /** tuple_product: no tuples give one empty tuple; otherwise element k,
    * for each k below the product's size, takes from each tuple the
    * component make_ctor_array<k> names (fill_ctor_aux). */
  method TupleProductOf<T>(tuples: seq<seq<T>>) returns (result: seq<seq<T>>)
    ensures result == Product(tuples)
  {
    if |tuples| == 0 {
      return [[]];
    }
    var dims := Sizes(tuples);
    ProductSize(tuples);
    var total := Volume(dims);
    result := [];
    for k := 0 to total
      invariant result == Product(tuples)[..k]
    {
      forall i | 0 <= i < |dims|
        ensures dims[i] > 0
      {
        VolumePositive(dims, i);
      }
      var digits := CtorArray(k, dims);
      var ds := digits[..];
      CtorDigitsValue(k, dims);
      var element := seq(|tuples|, i requires 0 <= i < |tuples| => tuples[i][ds[i]]);
      ProductElement(tuples, ds);
      assert Product(tuples)[..k + 1] == Product(tuples)[..k] + [element];
      result := result + [element];
    }
    assert Product(tuples)[..total] == Product(tuples);
  }

  // unit tests

  lemma TagMulPair<T>(a: T, b: T, rest: seq<seq<T>>)
    ensures TagMul([a, b], rest) == Prepend(a, rest) + Prepend(b, rest)
  {
    assert [a, b][1..] == [b];
    assert [b][1..] == [];
  }

  lemma PrependOne<T>(x: T, p: seq<T>)
    ensures Prepend(x, [p]) == [[x] + p]
  {
    assert [p][1..] == [];
  }

  lemma PrependTwo<T>(x: T, p: seq<T>, q: seq<T>)
    ensures Prepend(x, [p, q]) == [[x] + p, [x] + q]
  {
    assert [p, q][1..] == [q];
    PrependOne(x, q);
  }

  lemma PrependFour<T>(x: T, p: seq<T>, q: seq<T>, r: seq<T>, w: seq<T>)
    ensures Prepend(x, [p, q, r, w]) == [[x] + p, [x] + q, [x] + r, [x] + w]
  {
    assert [p, q, r, w][1..] == [q, r, w];
    assert [q, r, w][1..] == [r, w];
    PrependTwo(x, r, w);
  }

  /** unit_test0: T x U x V for three pairs lists the eight triples in
    * lexicographic order. */
  lemma UnitTest0<A>(t0: A, t1: A, u0: A, u1: A, v0: A, v1: A)
    ensures Product([[t0, t1], [u0, u1], [v0, v1]]) ==
      [[t0, u0, v0], [t0, u0, v1], [t0, u1, v0], [t0, u1, v1],
       [t1, u0, v0], [t1, u0, v1], [t1, u1, v0], [t1, u1, v1]]
  {
    var tuples := [[t0, t1], [u0, u1], [v0, v1]];
    assert tuples[1..] == [[u0, u1], [v0, v1]];
    assert [[u0, u1], [v0, v1]][1..] == [[v0, v1]];
    assert [[v0, v1]][1..] == [];
    var pv := Product([[v0, v1]]);
    assert pv == TagMul([v0, v1], Product([]));
    TagMulPair(v0, v1, [[]]);
    PrependOne(v0, []);
    PrependOne(v1, []);
    assert [v0] + [] == [v0] && [v1] + [] == [v1];
    assert pv == [[v0], [v1]];
    var puv := Product([[u0, u1], [v0, v1]]);
    assert puv == TagMul([u0, u1], pv);
    TagMulPair(u0, u1, pv);
    PrependTwo(u0, [v0], [v1]);
    PrependTwo(u1, [v0], [v1]);
    assert [u0] + [v0] == [u0, v0] && [u0] + [v1] == [u0, v1];
    assert [u1] + [v0] == [u1, v0] && [u1] + [v1] == [u1, v1];
    assert puv == [[u0, v0], [u0, v1], [u1, v0], [u1, v1]];
    assert Product(tuples) == TagMul([t0, t1], puv);
    TagMulPair(t0, t1, puv);
    PrependFour(t0, [u0, v0], [u0, v1], [u1, v0], [u1, v1]);
    PrependFour(t1, [u0, v0], [u0, v1], [u1, v0], [u1, v1]);
    assert [t0] + [u0, v0] == [t0, u0, v0] && [t0] + [u0, v1] == [t0, u0, v1];
    assert [t0] + [u1, v0] == [t0, u1, v0] && [t0] + [u1, v1] == [t0, u1, v1];
    assert [t1] + [u0, v0] == [t1, u0, v0] && [t1] + [u0, v1] == [t1, u0, v1];
    assert [t1] + [u1, v0] == [t1, u1, v0] && [t1] + [u1, v1] == [t1, u1, v1];
  }

  /** unit_test2: (x0, x1) x (y0) is [(x0, y0), (x1, y0)]. */
  lemma UnitTest2<A>(x0: A, x1: A, y0: A)
    ensures Product([[x0, x1], [y0]]) == [[x0, y0], [x1, y0]]
  {
    var tuples := [[x0, x1], [y0]];
    assert tuples[1..] == [[y0]];
    assert tuples[1..][1..] == [];
    assert [y0][1..] == [];
    assert [y0] + [] == [y0];
    assert Product(tuples[1..]) == TagMul([y0], [[]]);
    PrependOne(y0, []);
    assert Product(tuples[1..]) == [[y0]];
    assert Product(tuples) == TagMul([x0, x1], [[y0]]);
    TagMulPair(x0, x1, [[y0]]);
    PrependOne(x0, [y0]);
    PrependOne(x1, [y0]);
    assert [x0] + [y0] == [x0, y0] && [x1] + [y0] == [x1, y0];
  }
}
