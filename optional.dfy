/**
 * The optional reference of toys/optional/opt.h. An optional<T&> holds a
 * pointer: none, or the address of a referent object whose value may
 * change. Its observers are functions of that pointer and the referent;
 * reset, emplace, swap, |= and &= change the pointer in place. The free
 * operators ||, && and | are modelled on value optionals (Option).
 */
module Optional {
  import opened Wrappers

  /** An object an optional reference can point at. */
  class Referent<T> {
    var value: T

    constructor (v: T)
      ensures value == v
    {
      value := v;
    }
  }

  /** What std::bad_optional_access reports. */
  const BadAccess := "bad optional access"

  /** x |= v: the new state is v unless a value is already there. */
  function OrAssigned<X>(o: Option<X>, v: Option<X>): (r: Option<X>)
    ensures o.Some? ==> r == o
    ensures o.None? ==> r == v
  {
    if o.Some? then o else v
  }

  /** x &= v: the new state is v only where a value is already there. */
  function AndAssigned<X>(o: Option<X>, v: Option<X>): (r: Option<X>)
    ensures o.None? ==> r == None
    ensures o.Some? ==> r == v
  {
    if o.Some? then v else None
  }

  class OptionalRef<T> {
    /** _M_ptr: None for nullptr. */
    var target: Option<Referent<T>>

    /** optional(nullopt): empty. */
    constructor Empty()
      ensures target == None
    {
      target := None;
    }

    /** optional(T *value): empty for a null pointer, else refers to it. */
    constructor FromPointer(p: Option<Referent<T>>)
      ensures target == p
    {
      target := p;
    }

    /** optional(T &value): refers to value. */
    constructor Of(r: Referent<T>)
      ensures target == Some(r)
    {
      target := Some(r);
    }

    /** The defaulted copy: the same pointer. */
    constructor Copy(other: OptionalRef<T>)
      ensures target == other.target
    {
      target := other.target;
    }

    /** The objects the observers read: the referent, if any. */
    function Referents(): set<object>
      reads this
    {
      if target.Some? then {target.value} else {}
    }

    /** has_value() and explicit operator bool: the pointer is not null. */
    function HasValue(): (b: bool)
      reads this
      ensures b <==> target != None
    {
      target.Some?
    }

    /** operator*: the referent (dereferencing an empty optional is
      * undefined behaviour). */
    function Deref(): (r: Referent<T>)
      reads this
      requires HasValue()
      ensures target == Some(r)
    {
      target.value
    }

    /** value(): the referent, or bad_optional_access when empty. */
    function Value(): (r: Result<Referent<T>, string>)
      reads this
      ensures r.Err? <==> !HasValue()
      ensures r.Err? ==> r.error == BadAccess
      ensures r.Ok? ==> target == Some(r.value)
    {
      if !HasValue() then Err(BadAccess) else Ok(target.value)
    }

    /** The referent's current value, as a value optional. */
    function View(): (o: Option<T>)
      reads this, Referents()
      ensures o.Some? <==> HasValue()
      ensures o.Some? ==> o.value == target.value.value
    {
      if target.Some? then Some(target.value.value) else None
    }

    /** value_or(d): the referent's value if present, d otherwise. */
    function ValueOr(d: T): (r: T)
      reads this, Referents()
      ensures HasValue() ==> r == target.value.value
      ensures !HasValue() ==> r == d
    {
      if HasValue() then target.value.value else d
    }

    /** transform(fn): fn of the referent's value if present, else empty. */
    function Transform<U>(fn: T -> U): (r: Option<U>)
      reads this, Referents()
      ensures HasValue() ==> r == Some(fn(target.value.value))
      ensures !HasValue() ==> r == None
    {
      if HasValue() then Some(fn(target.value.value)) else None
    }

    /** and_then(fn): fn of the referent's value if present, else empty. */
    function AndThen<U>(fn: T -> Option<U>): (r: Option<U>)
      reads this, Referents()
      ensures HasValue() ==> r == fn(target.value.value)
      ensures !HasValue() ==> r == None
    {
      if HasValue() then fn(target.value.value) else None
    }

    /** or_else(fn): this optional if present, else what fn returns. */
    function OrElse(fn: () -> Option<Referent<T>>): (r: Option<Referent<T>>)
      reads this
      ensures HasValue() ==> r == target
      ensures !HasValue() ==> r == fn()
    {
      if HasValue() then target else fn()
    }

    /** swap(other): the two pointers are exchanged. */
    method Swap(other: OptionalRef<T>)
      modifies this, other
      ensures target == old(other.target) && other.target == old(target)
    {
      target, other.target := other.target, target;
    }

    /** reset(): empty. */
    method Reset()
      modifies this
      ensures target == None
    {
      target := None;
    }

    /** emplace(value): rebinds to value and returns it. */
    method Emplace(r: Referent<T>) returns (res: Referent<T>)
      modifies this
      ensures target == Some(r) && res == r
    {
      target := Some(r);
      res := target.value;
    }

    /** opt |= v. */
    method OrAssign(v: Option<Referent<T>>)
      modifies this
      ensures target == OrAssigned(old(target), v)
    {
      if !HasValue() {
        target := v;
      }
    }

    /** opt |= fn: fn is called only when the optional is empty. */
    method OrAssignWith(fn: () -> Option<Referent<T>>)
      modifies this
      ensures old(target).Some? ==> target == old(target)
      ensures old(target).None? ==> target == fn()
    {
      if !HasValue() {
        target := fn();
      }
    }

    /** opt &= v. */
    method AndAssign(v: Option<Referent<T>>)
      modifies this
      ensures target == AndAssigned(old(target), v)
    {
      if HasValue() {
        target := v;
      }
    }

    /** opt &= fn: fn is called with the referent only when present. */
    method AndAssignWith(fn: Referent<T> -> Option<Referent<T>>)
      modifies this
      ensures old(target).None? ==> target == None
      ensures old(target).Some? ==> target == fn(old(target).value)
    {
      if HasValue() {
        target := fn(target.value);
      }
    }
  }

  // the free operators, on value optionals

  /** opt || fn: the value, or fn() when empty. */
  function OrCall<T>(o: Option<T>, fn: () -> T): (r: T)
    ensures o.Some? ==> r == o.value
    ensures o.None? ==> r == fn()
  {
    if o.Some? then o.value else fn()
  }

  /** opt && fn: fn of the value, or nullopt when empty. */
  function AndCall<T, U>(o: Option<T>, fn: T -> Option<U>): (r: Option<U>)
    ensures o.Some? ==> r == fn(o.value)
    ensures o.None? ==> r == None
  {
    if o.Some? then fn(o.value) else None
  }

  /** opt | v: value_or(v). */
  function Pipe<T>(o: Option<T>, d: T): (r: T)
    ensures o.Some? ==> r == o.value
    ensures o.None? ==> r == d
  {
    o.GetOr(d)
  }

  /** opt | t where t is itself an optional: value_or(t) as an optional,
    * which is the state |= would leave. */
  function OrElseValue<T>(o: Option<T>, t: Option<T>): (r: Option<T>)
    ensures o.Some? ==> r == o
    ensures o.None? ==> r == t
  {
    OrAssigned(o, t)
  }

  /** opt | v on a reference optional is its value_or(v). */
  lemma PipeIsValueOr<T>(opt: OptionalRef<T>, d: T)
    ensures Pipe(opt.View(), d) == opt.ValueOr(d)
  {
  }

  /** opt || fn with a constant fn is opt | v. */
  lemma OrCallIsPipe<T>(o: Option<T>, d: T)
    ensures OrCall(o, () => d) == Pipe(o, d)
  {
  }

  /** transform(fn) is opt && (x => some fn(x)), and and_then(fn) is opt && fn. */
  lemma TransformIsAndCall<T, U>(opt: OptionalRef<T>, fn: T -> U, g: T -> Option<U>)
    ensures opt.Transform(fn) == AndCall(opt.View(), x => Some(fn(x)))
    ensures opt.AndThen(g) == AndCall(opt.View(), g)
  {
  }

  /** |= gives a value exactly when either side has one; &= keeps one only
    * when both do; and both are idempotent. */
  lemma AssignOperators<X>(o: Option<X>, v: Option<X>)
    ensures OrAssigned(o, v).Some? <==> o.Some? || v.Some?
    ensures AndAssigned(o, v).Some? <==> o.Some? && v.Some?
    ensures OrAssigned(OrAssigned(o, v), v) == OrAssigned(o, v)
    ensures AndAssigned(AndAssigned(o, v), v) == AndAssigned(o, v)
  {
  }

  /** The sequence of toys/optional/opt.cpp: a failed find(42), opt &=
    * nullptr, transform, emplace(233), opt | t | 42, opt |= x, opt && fn,
    * reset, and the final opt || fn. */
  method Demo() returns (found: bool, printed: int, seen: int, exitCode: int)
    ensures !found && printed == 233 && seen == 0 && exitCode == 0
  {
    var opt := new OptionalRef<int>.FromPointer(None);   // find(42) misses the pool 0..9
    found := opt.HasValue();
    opt.AndAssign(None);
    var t := opt.Transform(x => x);
    t := Some(233);                                     // t.emplace(233)
    printed := Pipe(OrElseValue(opt.View(), t), 42);
    var x := new Referent<int>(66);
    opt.OrAssign(Some(x));
    seen := -1;
    if opt.HasValue() {
      // the callback's parameter y is the referent x itself: the callback
      // writes x = 0 and then prints y
      x.value := 0;
      seen := opt.Deref().value;
    }
    opt.Reset();
    exitCode := OrCall(opt.View(), () => 0);
  }
}
