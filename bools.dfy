/**
 * The truth tables of toys/sets/bools.h. A std::bitset<n> is the sequence
 * of its n bits, bit 0 first; its numeric value (to_ulong) is `Value`. A
 * bool_table<n> is a bitset of 2^n entries, entry i holding the answer for
 * the input whose bits spell i.
 */
module Bools {
  import opened Bits

  /** to_ulong: the number the bits spell, bit 0 the lowest. */
  function Value(b: seq<bool>): (r: nat)
    ensures r < Pow2(|b|)
  {
    if b == [] then 0 else (if b[0] then 1 else 0) + 2 * Value(b[1..])
  }

  /** Bit j of x. */
  function Bit(x: nat, j: nat): bool {
    Shr(x, j) % 2 == 1
  }

  /** std::bitset<n>{x}: the low n bits of x. */
  function BitsOf(n: nat, x: nat): (r: seq<bool>)
    ensures |r| == n
  {
    seq(n, j requires 0 <= j => Bit(x, j))
  }

  /** b[j] of a bitset, false past its end. */
  function At(b: seq<bool>, j: nat): bool {
    j < |b| && b[j]
  }

  /** The bits of a number spell that number back. */
  lemma {:induction false} ValueBits(n: nat, x: nat)
    requires x < Pow2(n)
    ensures Value(BitsOf(n, x)) == x
    decreases n
  {
    if n > 0 {
      var b := BitsOf(n, x);
      ValueBits(n - 1, x / 2);
      assert b[1..] == BitsOf(n - 1, x / 2) by {
        forall j | 0 <= j < n - 1
          ensures b[1..][j] == BitsOf(n - 1, x / 2)[j]
        {
          assert Shr(x, j + 1) == Shr(x / 2, j);
        }
      }
      assert Bit(x, 0) == (x % 2 == 1);
    }
  }

  /** The bits of the value of b are b. */
  lemma {:induction false} BitsValue(b: seq<bool>)
    ensures BitsOf(|b|, Value(b)) == b
    decreases |b|
  {
    if b != [] {
      var x := Value(b);
      BitsValue(b[1..]);
      assert x / 2 == Value(b[1..]) && (x % 2 == 1) == b[0];
      forall j | 0 <= j < |b|
        ensures BitsOf(|b|, x)[j] == b[j]
      {
        if j > 0 {
          assert Shr(x, j) == Shr(x / 2, j - 1);
          assert BitsOf(|b| - 1, x / 2)[j - 1] == b[1..][j - 1];
        }
      }
    }
  }

  /** bool_table<n>::operator(): the entry at the input's value. An input
    * of n bits always falls inside a table of 2^n entries. */
  function Apply(t: seq<bool>, input: seq<bool>): bool {
    Value(input) < |t| && t[Value(input)]
  }

  /** What make_table<n>(fn) builds: entry i is fn of the bits of i. */
  function Table(n: nat, fn: seq<bool> -> bool): (t: seq<bool>)
    ensures |t| == Pow2(n)
  {
    seq(Pow2(n), i requires 0 <= i => fn(BitsOf(n, i)))
  }

  /** A table made from fn answers every input as fn does. */
  lemma TableApply(n: nat, fn: seq<bool> -> bool, input: seq<bool>)
    requires |input| == n
    ensures Apply(Table(n, fn), input) == fn(input)
  {
    BitsValue(input);
  }

  /** make_table: the loop over the 2^n entries. */
  method MakeTable(n: nat, fn: seq<bool> -> bool) returns (table: seq<bool>)
    requires 0 < n <= 64
    ensures table == Table(n, fn)
  {
    var size := Pow2(n);
    table := seq(size, _ => false);
    var i := 0;
    while i < size
      invariant 0 <= i <= size && |table| == size
      invariant forall k | 0 <= k < i :: table[k] == fn(BitsOf(n, k))
    {
      table := table[i := fn(BitsOf(n, i))];
      i := i + 1;
    }
  }

  /** The input gather hands to the table on input b: bit j is what source
    * j answers on b, for each of the sources; the bits past them stay 0. */
  function Gathered(srcs: seq<seq<bool>>, n: nat, b: seq<bool>): (r: seq<bool>)
    ensures |r| == n
  {
    seq(n, j requires 0 <= j => j < |srcs| && Apply(srcs[j], b))
  }

  /** The table gather builds. */
  function Composed(t: seq<bool>, n: nat, srcs: seq<seq<bool>>): (r: seq<bool>)
    ensures |r| == Pow2(n)
  {
    Table(n, b => Apply(t, Gathered(srcs, n, b)))
  }

  /** gather is composition: the new table answers every input as t does
    * on the answers of the sources. */
  lemma ComposedApply(t: seq<bool>, n: nat, srcs: seq<seq<bool>>, input: seq<bool>)
    requires |input| == n
    ensures Apply(Composed(t, n, srcs), input) == Apply(t, Gathered(srcs, n, input))
  {
    TableApply(n, b => Apply(t, Gathered(srcs, n, b)), input);
  }

  /** bool_table::gather(src...): make_table over the composed answers. */
  method Gather(t: seq<bool>, n: nat, srcs: seq<seq<bool>>) returns (r: seq<bool>)
    requires 0 < n <= 64 && |srcs| <= n
    ensures r == Composed(t, n, srcs)
    ensures forall input | |input| == n :: Apply(r, input) == Apply(t, Gathered(srcs, n, input))
  {
    r := MakeTable(n, b => Apply(t, Gathered(srcs, n, b)));
    forall input | |input| == n
      ensures Apply(r, input) == Apply(t, Gathered(srcs, n, input))
    {
      ComposedApply(t, n, srcs, input);
    }
  }

  // the constant tables

  function OrTable(): seq<bool> {
    Table(2, b => At(b, 0) || At(b, 1))
  }

  function AndTable(): seq<bool> {
    Table(2, b => At(b, 0) && At(b, 1))
  }

  function XorTable(): seq<bool> {
    Table(2, b => At(b, 0) != At(b, 1))
  }

  function SubTable(): seq<bool> {
    Table(2, b => At(b, 0) && !At(b, 1))
  }

  /** not_table<n, m>: the negation of input bit m. */
  function NotTable(n: nat, m: nat): seq<bool> {
    Table(n, b => !At(b, m))
  }

  /** map_table<n, m>: input bit m itself. */
  function MapTable(n: nat, m: nat): seq<bool> {
    Table(n, b => At(b, m))
  }

  /** The entries of the two-input tables: or is true at 1, 2 and 3, and at
    * 3, xor at 1 and 2, sub at 1; map<2, 0> where bit 0 is set, map<2, 1>
    * where bit 1 is set. */
  lemma ConstantTables()
    ensures OrTable() == [false, true, true, true]
    ensures AndTable() == [false, false, false, true]
    ensures XorTable() == [false, true, true, false]
    ensures SubTable() == [false, true, false, false]
    ensures MapTable(2, 0) == [false, true, false, true]
    ensures MapTable(2, 1) == [false, false, true, true]
    ensures NotTable(1, 0) == [true, false]
  {
    assert Pow2(2) == 4 && Pow2(1) == 2;
    assert BitsOf(2, 0) == [false, false];
    assert BitsOf(2, 1) == [true, false];
    assert BitsOf(2, 2) == [false, true];
    assert BitsOf(2, 3) == [true, true];
    assert BitsOf(1, 0) == [false];
    assert BitsOf(1, 1) == [true];
  }

  /** map_table<n, m> answers bit m of its input, not_table<n, m> its negation. */
  lemma MapNotApply(n: nat, m: nat, input: seq<bool>)
    requires m < n && |input| == n
    ensures Apply(MapTable(n, m), input) == input[m]
    ensures Apply(NotTable(n, m), input) == !input[m]
  {
    TableApply(n, b => At(b, m), input);
    TableApply(n, b => !At(b, m), input);
  }

  // find_possible_table

  /** The entry of a two-input table for the input (a, b). */
  function Code(a: bool, b: bool): nat {
    (if a then 1 else 0) + (if b then 2 else 0)
  }

  /** table.gather(x, y) on two-input tables, entry by entry: g applied to
    * the answers of x and y. */
  function Step(g: seq<bool>, x: seq<bool>, y: seq<bool>): seq<bool> {
    [At(g, Code(At(x, 0), At(y, 0))), At(g, Code(At(x, 1), At(y, 1))),
     At(g, Code(At(x, 2), At(y, 2))), At(g, Code(At(x, 3), At(y, 3)))]
  }

  /** Entry i of a composed table. */
  lemma ComposedAt(t: seq<bool>, n: nat, srcs: seq<seq<bool>>, i: nat)
    requires i < Pow2(n)
    ensures Composed(t, n, srcs)[i] == Apply(t, Gathered(srcs, n, BitsOf(n, i)))
  {
  }

  /** The input (a, b) of a two-input table is entry Code(a, b). */
  lemma ValuePair(a: bool, b: bool)
    ensures Value([a, b]) == Code(a, b)
  {
    assert [a, b][1..] == [b];
    assert [b][1..] == [];
  }

  /** A table read at the bits of i gives entry i. */
  lemma ApplyBits(t: seq<bool>, n: nat, i: nat)
    requires i < |t| && i < Pow2(n)
    ensures Apply(t, BitsOf(n, i)) == t[i]
  {
    ValueBits(n, i);
  }

  /** The input gather builds from two sources. */
  lemma GatheredPair(x: seq<bool>, y: seq<bool>, b: seq<bool>)
    ensures Gathered([x, y], 2, b) == [Apply(x, b), Apply(y, b)]
  {
  }

  /** Entry i of Step is entry i of the composed table. */
  lemma StepAt(g: seq<bool>, x: seq<bool>, y: seq<bool>, i: nat)
    requires |g| == 4 && |x| == 4 && |y| == 4 && i < 4
    ensures Composed(g, 2, [x, y])[i] == At(g, Code(x[i], y[i]))
  {
    assert Pow2(2) == 4;
    var b := BitsOf(2, i);
    ComposedAt(g, 2, [x, y], i);
    GatheredPair(x, y, b);
    ApplyBits(x, 2, i);
    ApplyBits(y, 2, i);
    ValuePair(x[i], y[i]);
  }

  /** Step is what gather builds from two two-input tables. */
  lemma StepGather(g: seq<bool>, x: seq<bool>, y: seq<bool>)
    requires |g| == 4 && |x| == 4 && |y| == 4
    ensures Step(g, x, y) == Composed(g, 2, [x, y])
  {
    assert Pow2(2) == 4;
    forall i | 0 <= i < 4
      ensures Step(g, x, y)[i] == Composed(g, 2, [x, y])[i]
    {
      StepAt(g, x, y, i);
      StepIndex(g, x, y, i);
    }
  }

  /** Entry i of Step. */
  lemma StepIndex(g: seq<bool>, x: seq<bool>, y: seq<bool>, i: nat)
    requires |x| == 4 && |y| == 4 && i < 4
    ensures Step(g, x, y)[i] == At(g, Code(x[i], y[i]))
  {
  }

  /** table.gather(x, y) on two-input tables. */
  method GatherPair(g: seq<bool>, x: seq<bool>, y: seq<bool>) returns (t: seq<bool>)
    requires |g| == 4 && |x| == 4 && |y| == 4
    ensures t == Step(g, x, y)
  {
    t := Gather(g, 2, [x, y]);
    StepGather(g, x, y);
  }

  /** The tables the search starts from: the two identities and the inputs. */
  function Base(inputs: seq<seq<bool>>): set<seq<bool>> {
    {[false, true, false, true], [false, false, true, true]} + set t | t in inputs
  }

  /** Every table that gathering two tables of p through an input gives. */
  function Gathers(inputs: seq<seq<bool>>, p: set<seq<bool>>): set<seq<bool>> {
    set g, x, y | g in inputs && x in p && y in p :: Step(g, x, y)
  }

  lemma GathersHas(inputs: seq<seq<bool>>, p: set<seq<bool>>, g: seq<bool>, x: seq<bool>, y: seq<bool>)
    requires g in inputs && x in p && y in p
    ensures Step(g, x, y) in Gathers(inputs, p)
  {
  }

  lemma GathersFrom(inputs: seq<seq<bool>>, p: set<seq<bool>>, t: seq<bool>)
    requires t in Gathers(inputs, p)
    ensures exists g, x, y :: g in inputs && x in p && y in p && t == Step(g, x, y)
  {
  }

  /** The tables reachable in at most d rounds of gathering. */
  function Gen(inputs: seq<seq<bool>>, d: nat): set<seq<bool>> {
    if d == 0 then Base(inputs) else Gen(inputs, d - 1) + Gathers(inputs, Gen(inputs, d - 1))
  }

  /** A table that some number of rounds of gathering reaches. */
  ghost predicate Derivable(inputs: seq<seq<bool>>, t: seq<bool>) {
    exists d: nat :: t in Gen(inputs, d)
  }

  lemma {:induction false} GenMono(inputs: seq<seq<bool>>, d: nat, e: nat)
    requires d <= e
    ensures Gen(inputs, d) <= Gen(inputs, e)
    decreases e
  {
    if d < e {
      GenMono(inputs, d, e - 1);
    }
  }

  /** Gathering two reachable tables through an input reaches one round further. */
  lemma GenStep(inputs: seq<seq<bool>>, d: nat, e: nat, g: seq<bool>, x: seq<bool>, y: seq<bool>)
    requires g in inputs && x in Gen(inputs, d) && y in Gen(inputs, e)
    ensures Step(g, x, y) in Gen(inputs, (if d < e then e else d) + 1)
  {
    var m := if d < e then e else d;
    GenMono(inputs, d, m);
    GenMono(inputs, e, m);
    GathersHas(inputs, Gen(inputs, m), g, x, y);
  }

  /** Every set of tables holding the base and closed under gathering holds
    * everything reachable. */
  lemma {:induction false} GenInClosed(inputs: seq<seq<bool>>, f: set<seq<bool>>, d: nat)
    requires Base(inputs) <= f
    requires forall g, x, y | g in inputs && x in f && y in f :: Step(g, x, y) in f
    ensures Gen(inputs, d) <= f
    decreases d
  {
    if d > 0 {
      GenInClosed(inputs, f, d - 1);
      forall t | t in Gathers(inputs, Gen(inputs, d - 1))
        ensures t in f
      {
        GathersFrom(inputs, Gen(inputs, d - 1), t);
      }
    }
  }

  /** Gathering the two identities gives the table back: the inputs the
    * search adds up front are reachable anyway. */
  lemma StepIdentity(g: seq<bool>)
    requires |g| == 4
    ensures Step(g, MapTable(2, 0), MapTable(2, 1)) == g
  {
    assert Pow2(2) == 4;
    forall i | 0 <= i < 4
      ensures Step(g, MapTable(2, 0), MapTable(2, 1))[i] == g[i]
    {
      var b := BitsOf(2, i);
      MapNotApply(2, 0, b);
      MapNotApply(2, 1, b);
      assert Gathered([MapTable(2, 0), MapTable(2, 1)], 2, b) == b;
      ValueBits(2, i);
    }
  }

  /** The number of entries set from entry i on. */
  function CountFrom(s: seq<bool>, i: nat): (r: nat)
    ensures r <= |s| - i || i > |s|
    decreases |s| - i
  {
    if i >= |s| then 0 else (if s[i] then 1 else 0) + CountFrom(s, i + 1)
  }

  /** The number of entries set. */
  function CountTrue(s: seq<bool>): (r: nat)
    ensures r <= |s|
  {
    CountFrom(s, 0)
  }

  lemma {:induction false} CountFromNone(s: seq<bool>, i: nat)
    requires forall j | 0 <= j < |s| :: !s[j]
    ensures CountFrom(s, i) == 0
    decreases |s| - i
  {
    if i < |s| {
      CountFromNone(s, i + 1);
    }
  }

  lemma CountTrueNone(s: seq<bool>)
    requires forall i | 0 <= i < |s| :: !s[i]
    ensures CountTrue(s) == 0
  {
    CountFromNone(s, 0);
  }

  /** Entries past k do not see an update at k. */
  lemma {:induction false} CountFromPast(s: seq<bool>, k: nat, v: bool, i: nat)
    requires k < |s| && k < i
    ensures CountFrom(s[k := v], i) == CountFrom(s, i)
    decreases |s| - i
  {
    if i < |s| {
      CountFromPast(s, k, v, i + 1);
    }
  }

  lemma {:induction false} CountFromSet(s: seq<bool>, k: nat, i: nat)
    requires i <= k < |s| && !s[k]
    ensures CountFrom(s[k := true], i) == CountFrom(s, i) + 1
    decreases |s| - i
  {
    if i < k {
      CountFromSet(s, k, i + 1);
    } else {
      CountFromPast(s, k, true, k + 1);
    }
  }

  lemma CountTrueSet(s: seq<bool>, k: nat)
    requires k < |s| && !s[k]
    ensures CountTrue(s[k := true]) == CountTrue(s) + 1
  {
    CountFromSet(s, k, 0);
  }

  /** n << 2 | i: entry i of the n-th table of the history. */
  lemma Slot(n: nat, i: nat)
    requires i < 4
    ensures Or(Shl(n, 2), i) == 4 * n + i
  {
    assert Pow2(2) == 4;
    OrComm(Shl(n, 2), i);
    OrDisjoint(i, n, 2);
  }

  /** The tables of a two-input table vector have four entries. */
  ghost predicate TwoInput(inputs: seq<seq<bool>>) {
    forall k | 0 <= k < |inputs| :: |inputs[k]| == 4
  }

  /** The tables the search starts from, one at a time. */
  ghost predicate IsBase(inputs: seq<seq<bool>>, t: seq<bool>) {
    t == [false, true, false, true] || t == [false, false, true, true] || t in inputs
  }

  /** Table t can follow the tables f: it has four entries and is one the
    * search starts from, or an input gathered over two of them. */
  ghost predicate Explained(inputs: seq<seq<bool>>, f: seq<seq<bool>>, t: seq<bool>) {
    |t| == 4 &&
    (IsBase(inputs, t) ||
     exists g, i, j {:trigger Step(inputs[g], f[i], f[j])} | 0 <= g < |inputs| && 0 <= i < |f| && 0 <= j < |f| ::
       t == Step(inputs[g], f[i], f[j]))
  }

  /** Every table found is explained by the ones before it. */
  ghost predicate Reached(inputs: seq<seq<bool>>, found: seq<seq<bool>>)
    decreases |found|
  {
    found == [] ||
    (Reached(inputs, found[..|found| - 1]) && Explained(inputs, found[..|found| - 1], found[|found| - 1]))
  }

  lemma ReachedAdd(inputs: seq<seq<bool>>, found: seq<seq<bool>>, t: seq<bool>, f: seq<seq<bool>>)
    requires Reached(inputs, found) && Explained(inputs, found, t) && f == found + [t]
    ensures Reached(inputs, f)
  {
    assert f[..|f| - 1] == found;
  }

  /** Every table an explained history holds has four entries and is reachable. */
  lemma {:induction false} ReachedReach(inputs: seq<seq<bool>>, found: seq<seq<bool>>, i: nat)
    requires Reached(inputs, found) && i < |found|
    ensures |found[i]| == 4 && Derivable(inputs, found[i])
    decreases |found|
  {
    var init := found[..|found| - 1];
    if i < |found| - 1 {
      ReachedReach(inputs, init, i);
    } else if IsBase(inputs, found[i]) {
      assert found[i] in Gen(inputs, 0);
    } else {
      var k, x, y :| 0 <= k < |inputs| && 0 <= x < |init| && 0 <= y < |init| && found[i] == Step(inputs[k], init[x], init[y]);
      var g := inputs[k];
      ReachedReach(inputs, init, x);
      ReachedReach(inputs, init, y);
      var dx: nat :| init[x] in Gen(inputs, dx);
      var dy: nat :| init[y] in Gen(inputs, dy);
      GenStep(inputs, dx, dy, g, init[x], init[y]);
    }
  }

  lemma ReachedFour(inputs: seq<seq<bool>>, found: seq<seq<bool>>)
    requires Reached(inputs, found)
    ensures forall i | 0 <= i < |found| :: |found[i]| == 4
  {
    forall i | 0 <= i < |found|
      ensures |found[i]| == 4
    {
      ReachedReach(inputs, found, i);
    }
  }

  /** The tables one after another. */
  function Concat(found: seq<seq<bool>>): seq<bool> {
    if found == [] then [] else Concat(found[..|found| - 1]) + found[|found| - 1]
  }

  /** The history starts with the tables found, four bits each, in order. */
  ghost predicate Recorded(history: seq<bool>, found: seq<seq<bool>>) {
    4 * |found| <= |history| && history[..4 * |found|] == Concat(found)
  }

  /** Table n of four-bit tables sits at bits 4n to 4n + 3 of their concatenation. */
  lemma {:induction false} ConcatAt(found: seq<seq<bool>>, n: nat)
    requires forall i | 0 <= i < |found| :: |found[i]| == 4
    requires n < |found|
    ensures |Concat(found)| == 4 * |found| && Concat(found)[4 * n..4 * n + 4] == found[n]
    decreases |found|
  {
    var init := found[..|found| - 1];
    if n < |found| - 1 {
      ConcatAt(init, n);
      assert Concat(found)[4 * n..4 * n + 4] == Concat(init)[4 * n..4 * n + 4];
    } else if n > 0 {
      ConcatAt(init, n - 1);
    }
  }

  lemma RecordedAdd(history: seq<bool>, history': seq<bool>, found: seq<seq<bool>>, t: seq<bool>, f: seq<seq<bool>>)
    requires Recorded(history, found) && |history| == 64 && |found| < 16 && |t| == 4
    requires history' == history[..4 * |found|] + t + history[4 * |found| + 4..]
    requires f == found + [t]
    ensures Recorded(history', f)
  {
    assert f[..|f| - 1] == found;
    assert history'[..4 * |f|] == history[..4 * |found|] + t;
  }

  /** The n-th four bits of a consistent history are the n-th table found. */
  lemma RecordedNth(history: seq<bool>, found: seq<seq<bool>>, n: nat)
    requires Recorded(history, found) && n < |found| && forall i | 0 <= i < |found| :: |found[i]| == 4
    ensures history[4 * n..4 * n + 4] == found[n]
  {
    ConcatAt(found, n);
    assert history[4 * n..4 * n + 4] == history[..4 * |found|][4 * n..4 * n + 4];
  }

  /** possible_table once the tables found were added: the value of each is
    * marked. */
  function MarksOf(found: seq<seq<bool>>): (m: seq<bool>)
    ensures |m| == 16
  {
    if found == [] then seq(16, _ => false)
    else
      var m, v := MarksOf(found[..|found| - 1]), Value(found[|found| - 1]);
      if v < 16 then m[v := true] else m
  }

  /** The value of every table found is marked. */
  lemma {:induction false} MarksOfHas(found: seq<seq<bool>>, i: nat)
    requires i < |found| && Value(found[i]) < 16
    ensures MarksOf(found)[Value(found[i])]
    decreases |found|
  {
    var init := found[..|found| - 1];
    if i < |found| - 1 {
      MarksOfHas(init, i);
    }
  }

  /** Every mark is the value of a table found. */
  lemma {:induction false} MarksOfFrom(found: seq<seq<bool>>, v: nat) returns (i: nat)
    requires v < 16 && MarksOf(found)[v]
    ensures i < |found| && Value(found[i]) == v
    decreases |found|
  {
    var init := found[..|found| - 1];
    if Value(found[|found| - 1]) == v {
      i := |found| - 1;
    } else {
      i := MarksOfFrom(init, v);
    }
  }

  /** Appending to the history keeps every mark. */
  lemma MarksKept(found: seq<seq<bool>>, found': seq<seq<bool>>)
    requires found <= found'
    ensures forall v | 0 <= v < 16 && MarksOf(found)[v] :: MarksOf(found')[v]
  {
    forall v | 0 <= v < 16 && MarksOf(found)[v]
      ensures MarksOf(found')[v]
    {
      var i := MarksOfFrom(found, v);
      assert found'[i] == found[i];
      MarksOfHas(found', i);
    }
  }

  /** A table of four entries has one of sixteen values. */
  lemma ValueFour(t: seq<bool>)
    requires |t| == 4
    ensures Value(t) < 16
  {
    assert Pow2(4) == 16;
  }

  /** The locals the lambdas of find_possible_table capture: the tables seen
    * (possible_table, indexed by their value), the tables in the order they
    * were found (history_tables, four bits each), their number (table_count)
    * and whether the current round found a new one (changed). */
  datatype Search = Search(possible: seq<bool>, history: seq<bool>, count: nat, changed: bool)

  /** The invariant of the search state, given the tables found in order:
    * each is explained by the ones before it, the history holds them and the
    * marks are their values. */
  ghost predicate Consistent(inputs: seq<seq<bool>>, s: Search, found: seq<seq<bool>>) {
    Sized(s) && |found| == s.count && Reached(inputs, found) &&
    Recorded(s.history, found) && s.possible == MarksOf(found)
  }

  /** The shape of a search state: sixteen marks, sixty-four bits of history
    * and as many tables counted as marks set. */
  predicate Sized(s: Search) {
    |s.possible| == 16 && |s.history| == 64 && s.count == CountTrue(s.possible)
  }

  /** possible_table[table.to_ulong()]: whether a table has been seen. */
  function Seen(possible: seq<bool>, t: seq<bool>): bool {
    Value(t) < |possible| && possible[Value(t)]
  }

  /** Gathering any two tables found through any input gives a table seen. */
  ghost predicate Closed(inputs: seq<seq<bool>>, possible: seq<bool>, found: seq<seq<bool>>) {
    forall g, i, j {:trigger Step(inputs[g], found[i], found[j])} | 0 <= g < |inputs| && 0 <= i < |found| && 0 <= j < |found| ::
      Seen(possible, Step(inputs[g], found[i], found[j]))
  }

  /** The tables the search starts from are all seen. */
  ghost predicate BaseSeen(inputs: seq<seq<bool>>, possible: seq<bool>) {
    Seen(possible, [false, true, false, true]) && Seen(possible, [false, false, true, true]) &&
    forall t | t in inputs :: Seen(possible, t)
  }

  /** A table seen is in the history. */
  lemma SeenFound(found: seq<seq<bool>>, t: seq<bool>) returns (i: nat)
    requires (forall i | 0 <= i < |found| :: |found[i]| == 4) && |t| == 4 && Seen(MarksOf(found), t)
    ensures i < |found| && found[i] == t
  {
    ValueFour(t);
    i := MarksOfFrom(found, Value(t));
    BitsValue(t);
    BitsValue(found[i]);
  }

  /** A history that is closed, holds the base and explains every table it
    * holds marks exactly the reachable tables. */
  lemma Characterize(inputs: seq<seq<bool>>, possible: seq<bool>, found: seq<seq<bool>>)
    requires TwoInput(inputs) && Reached(inputs, found) && possible == MarksOf(found)
    requires Closed(inputs, possible, found) && BaseSeen(inputs, possible)
    ensures forall k | 0 <= k < 16 :: possible[k] <==> Derivable(inputs, BitsOf(4, k))
  {
    ReachedFour(inputs, found);
    var f := set t | t in found;
    BaseInHistory(inputs, found, f);
    ClosedHistory(inputs, found, f);
    forall k | 0 <= k < 16
      ensures possible[k] <==> Derivable(inputs, BitsOf(4, k))
    {
      var t := BitsOf(4, k);
      if possible[k] {
        var i := MarksOfFrom(found, k);
        BitsValue(found[i]);
        ReachedReach(inputs, found, i);
      }
      if Derivable(inputs, t) {
        var d: nat :| t in Gen(inputs, d);
        GenInClosed(inputs, f, d);
        var i :| 0 <= i < |found| && found[i] == t;
        ValueBits(4, k);
        MarksOfHas(found, i);
      }
    }
  }

  lemma BaseInHistory(inputs: seq<seq<bool>>, found: seq<seq<bool>>, f: set<seq<bool>>)
    requires TwoInput(inputs) && (forall i | 0 <= i < |found| :: |found[i]| == 4)
    requires BaseSeen(inputs, MarksOf(found)) && f == set t | t in found
    ensures Base(inputs) <= f
  {
    var a := SeenFound(found, [false, true, false, true]);
    var b := SeenFound(found, [false, false, true, true]);
    forall t | t in inputs
      ensures t in f
    {
      var c := SeenFound(found, t);
    }
  }

  lemma ClosedHistory(inputs: seq<seq<bool>>, found: seq<seq<bool>>, f: set<seq<bool>>)
    requires (forall i | 0 <= i < |found| :: |found[i]| == 4) && Closed(inputs, MarksOf(found), found)
    requires f == set t | t in found
    ensures forall g, x, y | g in inputs && x in f && y in f :: Step(g, x, y) in f
  {
    forall g, x, y | g in inputs && x in f && y in f
      ensures Step(g, x, y) in f
    {
      var i :| 0 <= i < |found| && found[i] == x;
      var j :| 0 <= j < |found| && found[j] == y;
      var k := SeenFound(found, Step(g, x, y));
    }
  }

  /** The loop of add_new_table: entry i of the table goes to bit n << 2 | i
    * of the history, which is otherwise unchanged. */
  method WriteTable(history: seq<bool>, n: nat, table: seq<bool>) returns (h: seq<bool>)
    requires |history| == 64 && n < 16 && |table| == 4
    ensures h == history[..4 * n] + table + history[4 * n + 4..]
  {
    h := history;
    var i := 0;
    while i < 4
      invariant 0 <= i <= 4
      invariant h == history[..4 * n] + table[..i] + history[4 * n + i..]
    {
      Slot(n, i);
      assert table[..i + 1] == table[..i] + [table[i]];
      h := h[Or(Shl(n, 2), i) := table[i]];
      i := i + 1;
    }
  }

  /** add_new_table: a table already marked changes nothing; a new one is
    * marked, written to the next four bits of the history, counted and flags
    * the round as changed. */
  function AddNew(s: Search, table: seq<bool>): (r: Search)
    requires Sized(s) && |table| == 4
    ensures Sized(r) && Seen(r.possible, table)
    ensures r.changed == (s.changed || !Seen(s.possible, table))
    ensures r.count == if Seen(s.possible, table) then s.count else s.count + 1
  {
    ValueFour(table);
    if Seen(s.possible, table) then s
    else
      CountTrueSet(s.possible, Value(table));
      var n := s.count;
      Search(s.possible[Value(table) := true], s.history[..4 * n] + table + s.history[4 * n + 4..], n + 1, true)
  }

  /** Adding a table keeps every mark and sets only the table's own. */
  lemma AddNewMarks(s: Search, table: seq<bool>)
    requires Sized(s) && |table| == 4
    ensures forall v | 0 <= v < 16 && s.possible[v] :: AddNew(s, table).possible[v]
    ensures forall v | 0 <= v < 16 && AddNew(s, table).possible[v] && !s.possible[v] :: v == Value(table)
  {
    ValueFour(table);
  }

  method AddNewTable(s: Search, table: seq<bool>) returns (r: Search)
    requires Sized(s) && |table| == 4
    ensures r == AddNew(s, table)
  {
    ValueFour(table);
    if s.possible[Value(table)] {
      return s;
    }
    CountTrueSet(s.possible, Value(table));
    var n := s.count;
    var h := WriteTable(s.history, n, table);
    r := Search(s.possible[Value(table) := true], h, n + 1, true);
  }

  /** Adding a table the inputs explain keeps the search consistent, and
    * appends the table to the history when it is new. */
  lemma AddNewKeeps(inputs: seq<seq<bool>>, s: Search, found: seq<seq<bool>>, table: seq<bool>)
    returns (found': seq<seq<bool>>)
    requires Consistent(inputs, s, found) && Explained(inputs, found, table)
    ensures Consistent(inputs, AddNew(s, table), found')
    ensures found' == if Seen(s.possible, table) then found else found + [table]
  {
    ValueFour(table);
    if Seen(s.possible, table) {
      found' := found;
    } else {
      var s' := AddNew(s, table);
      found' := found + [table];
      RecordedAdd(s.history, s'.history, found, table, found');
      ReachedAdd(inputs, found, table, found');
      assert found'[..|found'| - 1] == found;
    }
  }

  /** The n-th four bits of the history. */
  function Nth(s: Search, n: nat): (table: seq<bool>)
    requires |s.history| == 64 && n < 16
    ensures |table| == 4
  {
    s.history[4 * n..4 * n + 4]
  }

  /** get_nth_table: bit n << 2 | i of the history for each entry i. */
  method GetNth(s: Search, n: nat) returns (table: seq<bool>)
    requires |s.history| == 64 && n < 16
    ensures table == Nth(s, n)
  {
    table := [false, false, false, false];
    var i := 0;
    while i < 4
      invariant 0 <= i <= 4 && |table| == 4
      invariant forall b | 0 <= b < i :: table[b] == s.history[4 * n + b]
    {
      Slot(n, i);
      table := table[i := s.history[Or(Shl(n, 2), i)]];
      i := i + 1;
    }
  }

  /** The n-th table of a consistent search, read from its history. */
  lemma NthFound(inputs: seq<seq<bool>>, s: Search, found: seq<seq<bool>>, n: nat)
    requires Consistent(inputs, s, found) && n < s.count
    ensures Nth(s, n) == found[n]
  {
    ReachedFour(inputs, found);
    RecordedNth(s.history, found, n);
  }

  /** Gathering x and y through each of the first k inputs gives a table seen. */
  ghost predicate GatherSeen(possible: seq<bool>, inputs: seq<seq<bool>>, k: nat, x: seq<bool>, y: seq<bool>)
    decreases k
  {
    k == 0 || (k <= |inputs| && GatherSeen(possible, inputs, k - 1, x, y) && Seen(possible, Step(inputs[k - 1], x, y)))
  }

  lemma {:induction false} GatherSeenAt(possible: seq<bool>, inputs: seq<seq<bool>>, k: nat, x: seq<bool>, y: seq<bool>, g: nat)
    requires GatherSeen(possible, inputs, k, x, y) && g < k
    ensures Seen(possible, Step(inputs[g], x, y))
    decreases k
  {
    if g < k - 1 {
      GatherSeenAt(possible, inputs, k - 1, x, y, g);
    }
  }

  /** The state after the innermost loop has gathered x and y through the
    * first k inputs. It only ever adds tables, flags a change exactly when it
    * adds one, and when it adds none the state is unchanged and every table
    * gathered was already seen. */
  function AfterGather(inputs: seq<seq<bool>>, s: Search, x: seq<bool>, y: seq<bool>, k: nat): (r: Search)
    requires Sized(s) && k <= |inputs|
    ensures Sized(r) && r.count >= s.count
    ensures r.changed == (s.changed || r.count > s.count)
    ensures r.count == s.count ==> r == s && GatherSeen(s.possible, inputs, k, x, y)
    decreases k
  {
    if k == 0 then s else AddNew(AfterGather(inputs, s, x, y, k - 1), Step(inputs[k - 1], x, y))
  }

  /** The state after the middle loop has run from column j on, with x as the
    * first argument; the loop re-reads the count, so it also visits the
    * tables it finds. When it adds no table the state is unchanged. */
  function AfterRow(inputs: seq<seq<bool>>, s: Search, x: seq<bool>, j: nat): (r: Search)
    requires Sized(s)
    ensures Sized(r) && r.count >= s.count
    ensures r.changed == (s.changed || r.count > s.count)
    ensures r.count == s.count ==> r == s
    decreases 16 - j
  {
    if j >= s.count then s
    else AfterRow(inputs, AfterGather(inputs, s, x, Nth(s, j), |inputs|), x, j + 1)
  }

  /** The state after the outer loop of a round has run from row i on. When
    * it adds no table the state is unchanged. */
  function AfterRound(inputs: seq<seq<bool>>, s: Search, i: nat): (r: Search)
    requires Sized(s)
    ensures Sized(r) && r.count >= s.count
    ensures r.changed == (s.changed || r.count > s.count)
    ensures r.count == s.count ==> r == s
    decreases 16 - i
  {
    if i >= s.count then s
    else AfterRound(inputs, AfterRow(inputs, s, Nth(s, i), 0), i + 1)
  }

  /** Gathering through every input over tables i and j' of the history gave
    * a table seen, for every pair (i, j') the loops of a round visit before
    * the pair (i, j). */
  ghost predicate Done(inputs: seq<seq<bool>>, s: Search, i: nat, j: nat)
    decreases i, j
  {
    if j > 0 then
      Done(inputs, s, i, j - 1) && i < s.count && j <= s.count && s.count <= 16 && |s.history| == 64 &&
      GatherSeen(s.possible, inputs, |inputs|, Nth(s, i), Nth(s, j - 1))
    else if i > 0 then Done(inputs, s, i - 1, s.count)
    else true
  }

  /** Every pair the loops visited before (i, j) was gathered through every input. */
  lemma {:induction false} DoneBefore(inputs: seq<seq<bool>>, s: Search, i: nat, j: nat, i': nat, j': nat)
    requires Sized(s) && Done(inputs, s, i, j)
    requires i' < s.count && j' < s.count && (i' < i || (i' == i && j' < j))
    ensures GatherSeen(s.possible, inputs, |inputs|, Nth(s, i'), Nth(s, j'))
    decreases i, j
  {
    if j > 0 {
      if !(i' == i && j' == j - 1) {
        DoneBefore(inputs, s, i, j - 1, i', j');
      }
    } else if i > 0 {
      DoneBefore(inputs, s, i - 1, s.count, i', j');
    }
  }

  /** A middle loop that adds no table completes the row it ran over. */
  lemma {:induction false} RowDone(inputs: seq<seq<bool>>, s: Search, i: nat, j: nat)
    requires Sized(s) && i < s.count
    ensures AfterRow(inputs, s, Nth(s, i), j).count == s.count && Done(inputs, s, i, j) ==> Done(inputs, s, i + 1, 0)
    decreases 16 - j
  {
    if j < s.count {
      var s1 := AfterGather(inputs, s, Nth(s, i), Nth(s, j), |inputs|);
      RowDone(inputs, s1, i, j + 1);
    }
  }

  /** An outer loop that adds no table completes the round. */
  lemma {:induction false} RoundDone(inputs: seq<seq<bool>>, s: Search, i: nat)
    requires Sized(s)
    ensures AfterRound(inputs, s, i).count == s.count && Done(inputs, s, i, 0) ==> Done(inputs, s, s.count, 0)
    decreases 16 - i
  {
    if i < s.count {
      var s1 := AfterRow(inputs, s, Nth(s, i), 0);
      RowDone(inputs, s, i, 0);
      RoundDone(inputs, s1, i + 1);
    } else if i > 0 && Done(inputs, s, i, 0) {
      assert Done(inputs, s, i - 1, s.count);
    }
  }

  /** A complete round over a consistent search leaves its history closed. */
  lemma DoneClosed(inputs: seq<seq<bool>>, s: Search, found: seq<seq<bool>>)
    requires Consistent(inputs, s, found) && Done(inputs, s, s.count, 0)
    ensures Closed(inputs, s.possible, found)
  {
    forall k, i, j | 0 <= k < |inputs| && 0 <= i < |found| && 0 <= j < |found|
      ensures Seen(s.possible, Step(inputs[k], found[i], found[j]))
    {
      DoneBefore(inputs, s, s.count, 0, i, j);
      NthFound(inputs, s, found, i);
      NthFound(inputs, s, found, j);
      GatherSeenAt(s.possible, inputs, |inputs|, found[i], found[j], k);
    }
  }

  /** The innermost loop: every input gathered over the tables x and y. */
  method GatherAll(inputs: seq<seq<bool>>, s: Search, x: seq<bool>, y: seq<bool>) returns (s': Search)
    requires TwoInput(inputs) && Sized(s) && |x| == 4 && |y| == 4
    ensures s' == AfterGather(inputs, s, x, y, |inputs|)
  {
    s' := s;
    for k := 0 to |inputs|
      invariant s' == AfterGather(inputs, s, x, y, k)
    {
      var t := GatherPair(inputs[k], x, y);
      s' := AddNewTable(s', t);
    }
  }

  /** The middle loop: every table found so far, including those found on
    * the way, as the second argument. */
  method Row(inputs: seq<seq<bool>>, s: Search, x: seq<bool>) returns (s': Search)
    requires TwoInput(inputs) && Sized(s) && |x| == 4
    ensures s' == AfterRow(inputs, s, x, 0)
  {
    s' := s;
    var j := 0;
    while j < s'.count
      invariant Sized(s') && AfterRow(inputs, s', x, j) == AfterRow(inputs, s, x, 0)
      decreases 16 - j
    {
      var y := GetNth(s', j);
      s' := GatherAll(inputs, s', x, y);
      j := j + 1;
    }
  }

  /** One pass of the do-while: the flag cleared, then every input gathered
    * over every pair of tables found so far, including those the pass itself
    * finds. */
  method Round(inputs: seq<seq<bool>>, s: Search) returns (s': Search)
    requires TwoInput(inputs) && Sized(s)
    ensures s' == AfterRound(inputs, s.(changed := false), 0)
  {
    s' := s.(changed := false);
    var i := 0;
    while i < s'.count
      invariant Sized(s') && AfterRound(inputs, s', i) == AfterRound(inputs, s.(changed := false), 0)
      decreases 16 - i
    {
      var x := GetNth(s', i);
      s' := Row(inputs, s', x);
      i := i + 1;
    }
  }

  /** Adding the table gathered from two found tables through one input
    * keeps the search consistent and only appends to the history. */
  lemma GatherStep(inputs: seq<seq<bool>>, s: Search, found: seq<seq<bool>>, x: seq<bool>,
                   y: seq<bool>, i: nat, j: nat, g: nat) returns (found': seq<seq<bool>>)
    requires Consistent(inputs, s, found) && i < |found| && j < |found| && x == found[i] && y == found[j]
    requires g < |inputs|
    ensures Consistent(inputs, AddNew(s, Step(inputs[g], x, y)), found') && found <= found'
  {
    found' := AddNewKeeps(inputs, s, found, Step(inputs[g], x, y));
  }

  /** The innermost loop keeps the search consistent and only appends to the
    * history. */
  lemma {:induction false} GatherKeeps(inputs: seq<seq<bool>>, s: Search, found: seq<seq<bool>>, x: seq<bool>,
                                       y: seq<bool>, i: nat, j: nat, k: nat) returns (found': seq<seq<bool>>)
    requires Consistent(inputs, s, found) && i < |found| && j < |found| && x == found[i] && y == found[j]
    requires k <= |inputs|
    ensures Consistent(inputs, AfterGather(inputs, s, x, y, k), found') && found <= found'
    decreases k
  {
    if k == 0 {
      found' := found;
    } else {
      var f1 := GatherKeeps(inputs, s, found, x, y, i, j, k - 1);
      var s1 := AfterGather(inputs, s, x, y, k - 1);
      assert f1[i] == x && f1[j] == y;
      assert AfterGather(inputs, s, x, y, k) == AddNew(s1, Step(inputs[k - 1], x, y));
      found' := GatherStep(inputs, s1, f1, x, y, i, j, k - 1);
    }
  }

  /** The middle loop keeps the search consistent and only appends to the
    * history. */
  lemma {:induction false} RowKeeps(inputs: seq<seq<bool>>, s: Search, found: seq<seq<bool>>, x: seq<bool>,
                                    i: nat, j: nat) returns (found': seq<seq<bool>>)
    requires Consistent(inputs, s, found) && i < |found| && x == found[i]
    ensures Consistent(inputs, AfterRow(inputs, s, x, j), found') && found <= found'
    decreases 16 - j
  {
    if j >= s.count {
      found' := found;
    } else {
      NthFound(inputs, s, found, j);
      var f1 := GatherKeeps(inputs, s, found, x, Nth(s, j), i, j, |inputs|);
      var s1 := AfterGather(inputs, s, x, Nth(s, j), |inputs|);
      assert AfterRow(inputs, s, x, j) == AfterRow(inputs, s1, x, j + 1);
      found' := RowKeeps(inputs, s1, f1, x, i, j + 1);
    }
  }

  /** The outer loop keeps the search consistent and only appends to the
    * history. */
  lemma {:induction false} PassKeeps(inputs: seq<seq<bool>>, s: Search, found: seq<seq<bool>>, i: nat)
    returns (found': seq<seq<bool>>)
    requires Consistent(inputs, s, found)
    ensures Consistent(inputs, AfterRound(inputs, s, i), found') && found <= found'
    decreases 16 - i
  {
    if i >= s.count {
      found' := found;
    } else {
      NthFound(inputs, s, found, i);
      var f1 := RowKeeps(inputs, s, found, Nth(s, i), i, 0);
      var s1 := AfterRow(inputs, s, Nth(s, i), 0);
      assert AfterRound(inputs, s, i) == AfterRound(inputs, s1, i + 1);
      found' := PassKeeps(inputs, s1, f1, i + 1);
    }
  }

  /** A round keeps the search consistent and only appends to the history;
    * it reports a change exactly when it appended, and a round without a
    * change leaves the history closed. */
  lemma RoundKeeps(inputs: seq<seq<bool>>, s: Search, found: seq<seq<bool>>) returns (found': seq<seq<bool>>)
    requires Consistent(inputs, s, found)
    ensures Consistent(inputs, AfterRound(inputs, s.(changed := false), 0), found') && found <= found'
    ensures AfterRound(inputs, s.(changed := false), 0).changed == (|found'| > |found|)
    ensures !AfterRound(inputs, s.(changed := false), 0).changed ==>
      Closed(inputs, AfterRound(inputs, s.(changed := false), 0).possible, found')
  {
    var s0 := s.(changed := false);
    found' := PassKeeps(inputs, s0, found, 0);
    if AfterRound(inputs, s0, 0).count == s0.count {
      RoundDone(inputs, s0, 0);
      DoneClosed(inputs, s0, found);
      assert found' == found;
    }
  }

  /** The search before anything is added: nothing marked, an empty history. */
  function Empty(): (r: Search)
    ensures Sized(r) && r.count == 0 && !r.changed
  {
    CountTrueNone(seq(16, _ => false));
    Search(seq(16, _ => false), seq(64, _ => false), 0, false)
  }

  /** The search after the two identities (map_table<2>(0) and
    * map_table<2>(1)) and then the first k given tables were added: all of
    * them are marked. */
  function Seeded(inputs: seq<seq<bool>>, k: nat): (r: Search)
    requires TwoInput(inputs) && k <= |inputs|
    ensures Sized(r)
    decreases k
  {
    if k == 0 then AddNew(AddNew(Empty(), [false, true, false, true]), [false, false, true, true])
    else AddNew(Seeded(inputs, k - 1), inputs[k - 1])
  }

  /** The seeded search marks the two identities and the first k given tables. */
  lemma {:induction false} SeededSeen(inputs: seq<seq<bool>>, k: nat)
    requires TwoInput(inputs) && k <= |inputs|
    ensures Seen(Seeded(inputs, k).possible, [false, true, false, true])
    ensures Seen(Seeded(inputs, k).possible, [false, false, true, true])
    ensures forall k' | 0 <= k' < k :: Seen(Seeded(inputs, k).possible, inputs[k'])
    decreases k
  {
    if k == 0 {
      var e := AddNew(Empty(), [false, true, false, true]);
      AddNewMarks(e, [false, false, true, true]);
      ValueFour([false, true, false, true]);
    } else {
      var s1 := Seeded(inputs, k - 1);
      SeededSeen(inputs, k - 1);
      AddNewMarks(s1, inputs[k - 1]);
      ValueFour([false, true, false, true]);
      ValueFour([false, false, true, true]);
      forall k' | 0 <= k' < k - 1
        ensures Seen(Seeded(inputs, k).possible, inputs[k'])
      {
        ValueFour(inputs[k']);
      }
    }
  }

  /** The start of find_possible_table: the two identities, then the given
    * tables, added in turn. */
  method Seed(inputs: seq<seq<bool>>) returns (s: Search)
    requires TwoInput(inputs)
    ensures s == Seeded(inputs, |inputs|)
  {
    ConstantTables();
    s := Empty();
    s := AddNewTable(s, MapTable(2, 0));
    s := AddNewTable(s, MapTable(2, 1));
    for k := 0 to |inputs|
      invariant s == Seeded(inputs, k)
    {
      s := AddNewTable(s, inputs[k]);
    }
  }

  /** The search after the two identities is consistent. */
  lemma StartKeeps(inputs: seq<seq<bool>>) returns (found: seq<seq<bool>>)
    requires TwoInput(inputs)
    ensures Consistent(inputs, Seeded(inputs, 0), found)
  {
    var e := Empty();
    assert Consistent(inputs, e, []);
    var f1 := AddNewKeeps(inputs, e, [], [false, true, false, true]);
    found := AddNewKeeps(inputs, AddNew(e, [false, true, false, true]), f1, [false, false, true, true]);
  }

  /** The seeded search is consistent: every table it holds is one the search
    * starts from. */
  lemma {:induction false} SeedKeeps(inputs: seq<seq<bool>>, k: nat) returns (found: seq<seq<bool>>)
    requires TwoInput(inputs) && k <= |inputs|
    ensures Consistent(inputs, Seeded(inputs, k), found)
    decreases k
  {
    if k == 0 {
      found := StartKeeps(inputs);
    } else {
      var f1 := SeedKeeps(inputs, k - 1);
      assert Seeded(inputs, k) == AddNew(Seeded(inputs, k - 1), inputs[k - 1]);
      found := AddNewKeeps(inputs, Seeded(inputs, k - 1), f1, inputs[k - 1]);
    }
  }

  /** The do-while of find_possible_table: rounds until one finds nothing new. */
  function Closure(inputs: seq<seq<bool>>, s: Search): (r: Search)
    requires Sized(s)
    ensures Sized(r) && !r.changed
    decreases 16 - s.count
  {
    var next := AfterRound(inputs, s.(changed := false), 0);
    if next.changed then Closure(inputs, next) else next
  }

  /** The rounds keep the search consistent and the base seen, and end with a
    * closed history. */
  lemma {:induction false} ClosureKeeps(inputs: seq<seq<bool>>, s: Search, found: seq<seq<bool>>)
    returns (found': seq<seq<bool>>)
    requires Consistent(inputs, s, found) && BaseSeen(inputs, s.possible)
    ensures Consistent(inputs, Closure(inputs, s), found') && BaseSeen(inputs, Closure(inputs, s).possible)
    ensures Closed(inputs, Closure(inputs, s).possible, found')
    decreases 16 - s.count
  {
    var next := AfterRound(inputs, s.(changed := false), 0);
    var f1 := RoundKeeps(inputs, s, found);
    MarksKept(found, f1);
    if next.changed {
      found' := ClosureKeeps(inputs, next, f1);
    } else {
      found' := f1;
    }
  }

  /** find_possible_table: the tables of two inputs reachable from the two
    * identities and the given tables by gathering through the given tables,
    * marked by their value. */
  method FindPossibleTable(inputs: seq<seq<bool>>) returns (possible: seq<bool>)
    requires TwoInput(inputs)
    ensures |possible| == 16
    ensures forall k | 0 <= k < 16 :: possible[k] <==> Derivable(inputs, BitsOf(4, k))
  {
    var s := Seed(inputs);
    ghost var start := s;
    while true
      invariant Sized(s) && Closure(inputs, s) == Closure(inputs, start)
      decreases 16 - s.count
    {
      s := Round(inputs, s);
      if !s.changed {
        break;
      }
    }
    ghost var found := SeedKeeps(inputs, |inputs|);
    SeededSeen(inputs, |inputs|);
    found := ClosureKeeps(inputs, start, found);
    possible := s.possible;
    Characterize(inputs, possible, found);
  }
}
