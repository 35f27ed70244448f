/**
 * The integer range of csrc/include/utils/irange.h, instantiated at its
 * default integer type std::size_t: a 64-bit unsigned value whose ++ and --
 * wrap around. An iterator holds one value and is stepped in place; a
 * range is a pair of values whose begin() and end() make fresh iterators.
 */
module IRange {
  const Modulus: nat := 0x1_0000_0000_0000_0000

  /** A std::size_t value. */
  type Word = x: int | 0 <= x < Modulus

  /** ++ on std::size_t. */
  function Next(v: Word): (r: Word)
    ensures v + 1 < Modulus ==> r == v + 1
    ensures v + 1 == Modulus ==> r == 0
  {
    (v + 1) % Modulus
  }

  /** -- on std::size_t. */
  function Prev(v: Word): (r: Word)
    ensures v > 0 ==> r == v - 1
    ensures v == 0 ==> r == Modulus - 1
  {
    (v + Modulus - 1) % Modulus
  }

  /** ++ and -- undo each other. */
  lemma StepBack(v: Word)
    ensures Prev(Next(v)) == v && Next(Prev(v)) == v
  {
  }

  class Iterator {
    var value: Word

    /** iterator(value). */
    constructor (v: Word)
      ensures value == v
    {
      value := v;
    }

    /** *it: the stored value. */
    function Deref(): (r: Word)
      reads this
      ensures r == value
    {
      value
    }

    /** it == other: defaulted, so it compares the stored values. */
    function Equals(other: Iterator): (b: bool)
      reads this, other
      ensures b <==> Deref() == other.Deref()
    {
      value == other.value
    }

    /** ++it: steps and returns the iterator itself. */
    method Increment() returns (self: Iterator)
      modifies this
      ensures self == this && value == Next(old(value))
    {
      value := Next(value);
      self := this;
    }

    /** it++: a copy holding the old value; then the iterator steps. */
    method PostIncrement() returns (copy: Iterator)
      modifies this
      ensures fresh(copy) && copy.value == old(value) && value == Next(old(value))
    {
      copy := new Iterator(value);
      value := Next(value);
    }

    /** --it: steps back and returns the iterator itself. */
    method Decrement() returns (self: Iterator)
      modifies this
      ensures self == this && value == Prev(old(value))
    {
      value := Prev(value);
      self := this;
    }

    /** it--: a copy holding the old value; then the iterator steps back. */
    method PostDecrement() returns (copy: Iterator)
      modifies this
      ensures fresh(copy) && copy.value == old(value) && value == Prev(old(value))
    {
      copy := new Iterator(value);
      value := Prev(value);
    }
  }

  /** integer_range(begin, end). */
  datatype IntegerRange = IntegerRange(first: Word, last: Word)
  {
    /** begin(): a fresh iterator at the first value. */
    method Begin() returns (it: Iterator)
      ensures fresh(it) && it.value == first
    {
      it := new Iterator(first);
    }

    /** end(): a fresh iterator at the end value. */
    method End() returns (it: Iterator)
      ensures fresh(it) && it.value == last
    {
      it := new Iterator(last);
    }
  }

  /** irange(to): from 0 to to. */
  function Irange(to: Word): (r: IntegerRange)
    ensures r.first == 0 && r.last == to
  {
    IntegerRange(0, to)
  }

  /** irange(from, to). */
  function IrangeFrom(from: Word, to: Word): (r: IntegerRange)
    ensures r.first == from && r.last == to
  {
    IntegerRange(from, to)
  }

  /** How often ++ takes begin to end: end - begin, modulo 2^64. */
  function Steps(r: IntegerRange): (n: nat)
    ensures n < Modulus
    ensures r.first <= r.last ==> n == r.last - r.first
  {
    (r.last - r.first) % Modulus
  }

  /** The values ++ visits from begin before it reaches end. */
  function Elements(r: IntegerRange): (s: seq<Word>)
    ensures |s| == Steps(r)
  {
    seq(Steps(r), i requires 0 <= i < Steps(r) => (r.first + i) % Modulus)
  }

  /** irange(from, to) with from <= to spans [from, to): every value in
    * that interval, once each, in increasing order. */
  lemma SpanFrom(from: Word, to: Word)
    requires from <= to
    ensures var s := Elements(IrangeFrom(from, to));
      |s| == to - from &&
      (forall i | 0 <= i < |s| :: s[i] == from + i) &&
      (forall v: int :: v in s <==> from <= v < to)
  {
    var s := Elements(IrangeFrom(from, to));
    forall v: int
      ensures v in s <==> from <= v < to
    {
      if from <= v < to {
        assert s[v - from] == v;
      }
    }
  }

  /** irange(to) spans [0, to). */
  lemma Span(to: Word)
    ensures var s := Elements(Irange(to));
      |s| == to && (forall i | 0 <= i < |s| :: s[i] == i)
  {
    SpanFrom(0, to);
  }

  /** A range whose begin equals its end is empty. */
  lemma EmptyRange(v: Word)
    ensures Elements(IrangeFrom(v, v)) == []
  {
  }

  /** A range-for over r: from begin(), read *it and apply ++ until the
    * iterator equals end(). */
  method Iterate(r: IntegerRange) returns (visited: seq<Word>)
    ensures visited == Elements(r)
  {
    var it := r.Begin();
    var stop := r.End();
    visited := [];
    while !it.Equals(stop)
      invariant it != stop && stop.value == r.last
      invariant |visited| <= Steps(r)
      invariant it.value == (r.first + |visited|) % Modulus
      invariant visited == Elements(r)[..|visited|]
      decreases Steps(r) - |visited|
    {
      StepCount(r, |visited|);
      visited := visited + [it.Deref()];
      var _ := it.Increment();
    }
    StepCount(r, |visited|);
  }

  /** Before Steps(r) increments the iterator is not yet at end; after
    * exactly that many it is. */
  lemma StepCount(r: IntegerRange, k: nat)
    requires k <= Steps(r)
    ensures ((r.first + k) % Modulus == r.last) <==> k == Steps(r)
    ensures k < Steps(r) ==> Next((r.first + k) % Modulus) == (r.first + k + 1) % Modulus
  {
  }
}
