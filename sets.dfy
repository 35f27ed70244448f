/**
 * The set operators of toys/sets/sets.h. A set type provides some of
 * intersection (&), union (|), symmetric difference (^), difference (/),
 * the comparison <=> and, for a set over a fixed universe, the complement
 * (~); every operator it lacks is derived from the ones it has. Sets are
 * `set<T>`, the universe of the complement is `u`, and the operators a type
 * provides are its `Ops`.
 */
module Sets {
  import opened Wrappers

  /** The set_has_default_* concepts: which operators the type provides
    * itself, whether it is equality comparable and whether it can be
    * default-constructed (the empty set). */
  datatype Ops = Ops(hasAnd: bool, hasOr: bool, hasXor: bool, hasSub: bool, hasCmp: bool,
                     hasNot: bool, hasEq: bool, hasEmpty: bool)

  /** ~a: the complement in the universe u. */
  function Compl<T>(u: set<T>, a: set<T>): set<T> {
    u - a
  }

  /** a ^ b: the elements in exactly one of the two. */
  function SymDiff<T>(a: set<T>, b: set<T>): set<T> {
    (a + b) - (a * b)
  }

  // op_and

  function AndBySub<T>(a: set<T>, b: set<T>): (r: set<T>)
    ensures r == a * b
  {
    a - (a - b)
  }

  function AndByOrXor<T>(a: set<T>, b: set<T>): (r: set<T>)
    ensures r == a * b
  {
    SymDiff(a + b, SymDiff(a, b))
  }

  function AndByOrNot<T>(u: set<T>, a: set<T>, b: set<T>): (r: set<T>)
    requires a <= u && b <= u
    ensures r == a * b
  {
    Compl(u, Compl(u, a) + Compl(u, b))
  }

  /** op_and: the type's own & when it has one, else the first formula its
    * operators allow. Every choice is the intersection. */
  function OpAnd<T>(ops: Ops, u: set<T>, a: set<T>, b: set<T>): (r: set<T>)
    requires ops.hasSub || (ops.hasOr && (ops.hasXor || ops.hasNot))
    requires a <= u && b <= u
    ensures r == a * b
  {
    if ops.hasAnd then a * b
    else if ops.hasSub then AndBySub(a, b)
    else if ops.hasOr && ops.hasXor then AndByOrXor(a, b)
    else AndByOrNot(u, a, b)
  }

  // op_or

  function OrBySubXor<T>(a: set<T>, b: set<T>): (r: set<T>)
    ensures r == a + b
  {
    SymDiff(a - b, b)
  }

  function OrByAndXor<T>(a: set<T>, b: set<T>): (r: set<T>)
    ensures r == a + b
  {
    SymDiff(a * b, SymDiff(a, b))
  }

  function OrBySubNot<T>(u: set<T>, a: set<T>, b: set<T>): (r: set<T>)
    requires a <= u && b <= u
    ensures r == a + b
  {
    Compl(u, Compl(u, a) - b)
  }

  function OrByAndNot<T>(u: set<T>, a: set<T>, b: set<T>): (r: set<T>)
    requires a <= u && b <= u
    ensures r == a + b
  {
    Compl(u, Compl(u, a) * Compl(u, b))
  }

  /** op_or: every choice is the union. */
  function OpOr<T>(ops: Ops, u: set<T>, a: set<T>, b: set<T>): (r: set<T>)
    requires (ops.hasAnd || ops.hasSub) && (ops.hasXor || ops.hasNot)
    requires a <= u && b <= u
    ensures r == a + b
  {
    if ops.hasOr then a + b
    else if ops.hasSub && ops.hasXor then OrBySubXor(a, b)
    else if ops.hasAnd && ops.hasXor then OrByAndXor(a, b)
    else if ops.hasSub && ops.hasNot then OrBySubNot(u, a, b)
    else OrByAndNot(u, a, b)
  }

  // op_xor

  function XorBySubOr<T>(a: set<T>, b: set<T>): (r: set<T>)
    ensures r == SymDiff(a, b)
  {
    (a - b) + (b - a)
  }

  function XorByNotSub<T>(u: set<T>, a: set<T>, b: set<T>): (r: set<T>)
    requires a <= u && b <= u
    ensures r == SymDiff(a, b)
  {
    var tmp := Compl(u, b);
    Compl(u, tmp - a) - (a - tmp)
  }

  function XorByNotOr<T>(u: set<T>, a: set<T>, b: set<T>): (r: set<T>)
    requires a <= u && b <= u
    ensures r == SymDiff(a, b)
  {
    Compl(u, a + Compl(u, b)) + Compl(u, Compl(u, a) + b)
  }

  function XorByNotAnd<T>(u: set<T>, a: set<T>, b: set<T>): (r: set<T>)
    requires a <= u && b <= u
    ensures r == SymDiff(a, b)
  {
    Compl(u, a * b) * Compl(u, Compl(u, a) * Compl(u, b))
  }

  /** op_xor: every choice is the symmetric difference. */
  function OpXor<T>(ops: Ops, u: set<T>, a: set<T>, b: set<T>): (r: set<T>)
    requires (ops.hasNot && (ops.hasSub || ops.hasOr || ops.hasAnd)) || (ops.hasSub && ops.hasOr)
    requires a <= u && b <= u
    ensures r == SymDiff(a, b)
  {
    if ops.hasXor then SymDiff(a, b)
    else if ops.hasSub && ops.hasOr then XorBySubOr(a, b)
    else if ops.hasNot && ops.hasSub then XorByNotSub(u, a, b)
    else if ops.hasNot && ops.hasOr then XorByNotOr(u, a, b)
    else XorByNotAnd(u, a, b)
  }

  // op_sub

  function SubByAndXor<T>(a: set<T>, b: set<T>): (r: set<T>)
    ensures r == a - b
  {
    SymDiff(a * b, a)
  }

  function SubByOrXor<T>(a: set<T>, b: set<T>): (r: set<T>)
    ensures r == a - b
  {
    SymDiff(a + b, b)
  }

  function SubByAndNot<T>(u: set<T>, a: set<T>, b: set<T>): (r: set<T>)
    requires a <= u && b <= u
    ensures r == a - b
  {
    a * Compl(u, b)
  }

  function SubByOrNot<T>(u: set<T>, a: set<T>, b: set<T>): (r: set<T>)
    requires a <= u && b <= u
    ensures r == a - b
  {
    Compl(u, Compl(u, a) + b)
  }

  /** op_sub: every choice is the difference. */
  function OpSub<T>(ops: Ops, u: set<T>, a: set<T>, b: set<T>): (r: set<T>)
    requires (ops.hasAnd || ops.hasOr) && (ops.hasXor || ops.hasNot)
    requires a <= u && b <= u
    ensures r == a - b
  {
    if ops.hasSub then a - b
    else if ops.hasAnd && ops.hasXor then SubByAndXor(a, b)
    else if ops.hasOr && ops.hasXor then SubByOrXor(a, b)
    else if ops.hasAnd && ops.hasNot then SubByAndNot(u, a, b)
    else SubByOrNot(u, a, b)
  }

  // op_cmp

  /** std::partial_ordering. */
  datatype Ordering = Less | Equivalent | Greater | Unordered

  /** The two tests "a below b" and "b below a" combined as op_cmp does. */
  function FromTests(le: bool, ge: bool): Ordering {
    if ge then (if le then Equivalent else Greater)
    else (if le then Less else Unordered)
  }

  /** op_cmp: the type's own <=>, taken to be the inclusion order, else
    * inclusion tested through &, | or / and the empty set. */
  function OpCmp<T>(ops: Ops, a: set<T>, b: set<T>): (r: Ordering)
    requires ops.hasEq && (ops.hasAnd || ops.hasOr || (ops.hasSub && ops.hasEmpty))
    ensures r == Equivalent <==> a == b
    ensures r == Less <==> a < b
    ensures r == Greater <==> b < a
    ensures r == Unordered <==> !(a <= b) && !(b <= a)
  {
    if ops.hasCmp then FromTests(a <= b, b <= a)
    else if ops.hasAnd then
      var both := a * b;
      FromTests(a == both, b == both)
    else if ops.hasOr then
      var either := a + b;
      FromTests(b == either, a == either)
    else
      EmptyDiff(a, b);
      EmptyDiff(b, a);
      FromTests(a - b == {}, b - a == {})
  }

  /** Nothing is left of a without b exactly when a is a part of b. */
  lemma EmptyDiff<T>(a: set<T>, b: set<T>)
    ensures a - b == {} <==> a <= b
  {
    if a - b != {} {
      var x :| x in a - b;
      assert x in a && x !in b;
    } else {
      forall x | x in a
        ensures x in b
      {
        assert x !in a - b;
      }
    }
  }

  /** Two sets meet in the empty set exactly when they are disjoint. */
  lemma EmptyMeet<T>(a: set<T>, b: set<T>)
    ensures a * b == {} <==> a !! b
  {
    if a * b != {} {
      var x :| x in a * b;
      assert x in a && x in b;
    } else {
      forall x | x in a
        ensures x !in b
      {
        assert x !in a * b;
      }
    }
  }

  // the free functions

  /** empty_set: the default-constructed set. */
  function EmptySet<T>(): (r: set<T>)
    ensures forall x :: x !in r
  {
    {}
  }

  /** full_set: the complement of the empty set, which is the universe. */
  function FullSet<T>(u: set<T>): (r: set<T>)
    ensures r == u
  {
    Compl(u, EmptySet())
  }

  /** The complement undoes itself inside the universe. */
  lemma ComplTwice<T>(u: set<T>, a: set<T>)
    requires a <= u
    ensures Compl(u, Compl(u, a)) == a
  {
  }

  /** a + b: throws unless the sets are disjoint, and is then their union. */
  function Plus<T>(a: set<T>, b: set<T>): (r: Result<set<T>, string>)
    ensures r.Ok? <==> a !! b
    ensures r.Ok? ==> r.value == a + b
  {
    EmptyMeet(a, b);
    if a * b != EmptySet() then Err("Sets must be disjoint") else Ok(a + b)
  }

  /** a - b: throws unless b is a part of a, and is then their difference. */
  function Minus<T>(a: set<T>, b: set<T>): (r: Result<set<T>, string>)
    ensures r.Ok? <==> b <= a
    ensures r.Ok? ==> r.value == a - b
  {
    if a * b != b then Err("Sets must be disjoint") else Ok(a - b)
  }

  /** Taking away what was just added gives the first set back. */
  lemma PlusMinus<T>(a: set<T>, b: set<T>)
    requires a !! b
    ensures Plus(a, b).Ok? && Minus(Plus(a, b).value, b) == Ok(a)
  {
  }

  /** Adding back what was just taken away gives the first set back. */
  lemma MinusPlus<T>(a: set<T>, b: set<T>)
    requires b <= a
    ensures Minus(a, b).Ok? && Plus(Minus(a, b).value, b) == Ok(a)
  {
    assert (a - b) + b == a;
  }
}
