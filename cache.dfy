/**
 * ThreadSafeCacheSized2 (misc/shared_map_2.cpp) as a class run by one thread:
 * the maps, the LRU list and current_size_ are fields updated in place, and
 * each method is proved to take the state machine of CacheSpec one step.
 */
module Cache {
  import opened CacheSpec

  class SizedCache<K(==), V> {
    const policy: Policy<K, V>
    /** One LockedMap per key type. */
    var stores: Stores<K, V>
    /** lru_list, LRU end first. */
    var lru: seq<Node<K>>
    /** current_size_. */
    var currentSize: int
    /** The "Computing" lines Policy::compute prints, one node per call. */
    var log: seq<Node<K>>

    ghost function Model(): State<K, V>
      reads this
    {
      State(stores, lru, currentSize, log)
    }

    ghost predicate Valid()
      reads this
    {
      Inv(Model(), policy)
    }

    /** A cache with one empty map per key type and an empty list. */
    constructor (keyTypes: nat, policy: Policy<K, V>)
      ensures this.policy == policy && Model() == Empty(keyTypes)
      ensures Settled(Model(), policy)
    {
      this.policy := policy;
      stores := seq(keyTypes, _ => map[]);
      lru := [];
      currentSize := 0;
      log := [];
      new;
      EmptySettled<K, V>(keyTypes, policy);
    }

    /** lru_visit: splice a linked node to the MRU end; answer its future. */
    method Visit(n: Node<K>) returns (f: Future<V>)
      requires Valid() && Present(stores, n)
      modifies this
      ensures Step(Model(), f) == CacheSpec.Visit(old(Model()), n) && Valid()
      ensures Settled(old(Model()), policy) ==> Settled(Model(), policy)
    {
      VisitInv(Model(), policy, n);
      var e := stores[n.tag][n.key];
      if e.linked {
        lru := MoveToBack(lru, n);
      }
      f := e.future;
    }

    /** The shared phase of try_insert: a present key goes to `exist`. */
    method Probe(n: Node<K>) returns (found: bool, f: Future<V>)
      requires Valid()
      modifies this
      ensures (Model(), found) == CacheSpec.Probe(old(Model()), n) && Valid()
      ensures found ==> f == Lookup(old(stores), n).future
      ensures Settled(old(Model()), policy) ==> Settled(Model(), policy)
    {
      found := n.tag < |stores| && n.key in stores[n.tag];
      f := Pending;
      if found {
        f := Visit(n);
      }
    }

    /** The exclusive phase of try_insert: try_emplace; a fresh entry gets a
      * pending future and a new node at the MRU end (lru_init), a key inserted
      * meanwhile is visited instead. */
    method Acquire(n: Node<K>) returns (inserted: bool, f: Future<V>)
      requires Valid() && n.tag < |stores|
      modifies this
      ensures var a := CacheSpec.Acquire(old(Model()), n);
              Model() == a.state && f == a.future && inserted == a.inserted
      ensures Valid()
      ensures Settled(old(Model()), policy) ==> Settled(Model(), policy)
    {
      AcquireInv(Model(), policy, n);
      if n.key in stores[n.tag] {
        inserted := false;
        f := Visit(n);
      } else {
        inserted := true;
        stores := stores[n.tag := stores[n.tag][n.key := Entry(Pending, true)]];
        lru := lru + [n];
        f := Pending;
      }
    }

    /** `exit`: run the task of a fresh entry; the value is computed and logged,
      * and its size is added to current_size_. */
    method RunTask(n: Node<K>) returns (f: Future<V>)
      requires Valid() && Present(stores, n) && Lookup(stores, n).future.Pending?
      modifies this
      ensures Step(Model(), f) == CacheSpec.RunTask(old(Model()), policy, n) && Valid()
      ensures Settled(old(Model()), policy) ==> Settled(Model(), policy)
    {
      RunTaskInv(Model(), policy, n);
      var value := policy.compute(n.tag, n.key);
      log := log + [n];
      var size := policy.size(value);
      currentSize := currentSize + size;
      f := Ready(Sized(value, size));
      stores := stores[n.tag := stores[n.tag][n.key := stores[n.tag][n.key].(future := f)]];
    }

    /** GetFuture: try_insert with lru_visit, the packaged task, lru_init and the task run. */
    method GetFuture(n: Node<K>) returns (f: Future<V>)
      requires Valid() && n.tag < |stores|
      modifies this
      ensures Step(Model(), f) == CacheSpec.GetFuture(old(Model()), policy, n) && Valid()
      ensures Settled(old(Model()), policy) ==> Settled(Model(), policy)
    {
      var found;
      found, f := Probe(n);
      if !found {
        var inserted;
        inserted, f := Acquire(n);
        if inserted {
          f := RunTask(n);
        }
      }
    }

    /** LockedMap::erase on the node's own map. */
    method Erase(n: Node<K>)
      requires n.tag < |stores|
      modifies this
      ensures stores == EraseKey(old(stores), n)
      ensures lru == old(lru) && currentSize == old(currentSize) && log == old(log)
    {
      stores := stores[n.tag := stores[n.tag] - {n.key}];
    }

    /** The part of lru_evict under the LRU lock: the short circuit, the
      * do-while from the LRU front, and the splice of the unready nodes back
      * at the MRU end. */
    method Detach() returns (free: seq<Node<K>>)
      requires forall i | 0 <= i < |lru| :: IsLinked(stores, lru[i])
      modifies this
      ensures (Model(), free) == Evict(old(Model()), policy)
    {
      if !policy.shouldEvict(currentSize) || lru == [] {
        return [];
      }
      var waiting, rest;
      stores, free, waiting, rest, currentSize := DetachLoop(stores, policy.shouldEvict, lru, currentSize);
      lru := rest + waiting;
    }

    /** The loop of lru_evict after the lock is released: erase each key of
      * the free list from the map of its own key type. */
    method EraseFree(free: seq<Node<K>>)
      requires forall j | 0 <= j < |free| :: free[j].tag < |stores|
      modifies this
      ensures stores == EraseAll(old(stores), free)
      ensures lru == old(lru) && currentSize == old(currentSize) && log == old(log)
    {
      for i := 0 to |free|
        invariant |stores| == |old(stores)|
        invariant stores == EraseAll(old(stores), free[..i])
        invariant lru == old(lru) && currentSize == old(currentSize) && log == old(log)
      {
        assert free[..i + 1] == free[..i] + [free[i]];
        EraseSnoc(old(stores), free[..i], free[i]);
        Erase(free[i]);
      }
      assert free[..|free|] == free;
    }

    /** Pop: lru_evict with should_evict(current_size_) as the predicate and
      * the readiness test of the future as `evict`. */
    method Pop()
      requires Valid()
      modifies this
      ensures Model() == CacheSpec.Pop(old(Model()), policy) && Valid()
      ensures Settled(old(Model()), policy) ==> Settled(Model(), policy)
    {
      ghost var st0 := Model();
      PopInv(st0, policy);
      if Settled(st0, policy) {
        PopSettled(st0, policy);
      }
      EvictInv(st0, policy);
      var free := Detach();
      assert forall j | 0 <= j < |free| :: Present(stores, free[j]);
      EraseFree(free);
    }

    /** Get: GetFuture, Pop, then the future's value, which is the key's
      * computed value even when this Pop evicted the entry. */
    method Get(n: Node<K>) returns (v: V)
      requires Valid() && n.tag < |stores|
      modifies this
      ensures (Model(), v) == CacheSpec.Get(old(Model()), policy, n) && Valid()
      ensures v == policy.compute(n.tag, n.key)
      ensures Settled(old(Model()), policy) ==> Settled(Model(), policy)
    {
      GetValue(Model(), policy, n);
      var f := GetFuture(n);
      Pop();
      v := FutureValue(policy, n, f);
    }
  }

  /** One round of the do-while of lru_evict on the node at the LRU front: a
    * ready entry gets its iterator reset, joins the free list and gives back
    * its size; an unready one is set aside. */
  method TakeFront<K, V>(ghost stores0: Stores<K, V>, stores: Stores<K, V>, lru: seq<Node<K>>, size: int,
                         evicted: seq<Node<K>>, waiting: seq<Node<K>>)
      returns (stores': Stores<K, V>, lru': seq<Node<K>>, size': int, evicted': seq<Node<K>>, waiting': seq<Node<K>>)
    requires |lru| > 0 && IsLinked(stores0, lru[0]) && stores == Unlink(stores0, evicted)
    ensures Scanned(evicted', waiting', lru', size') == Front(stores0, lru, size, evicted, waiting)
    ensures stores' == Unlink(stores0, evicted')
  {
    var n := lru[0];
    UnlinkKeeps(stores0, evicted, n);
    lru' := lru[1..];
    var e := stores[n.tag][n.key];
    if e.future.Ready? {
      size' := size - e.future.sized.size;
      stores' := stores[n.tag := stores[n.tag][n.key := e.(linked := false)]];
      UnlinkSnoc(stores0, evicted, n);
      evicted', waiting' := evicted + [n], waiting;
    } else {
      stores', size' := stores, size;
      evicted', waiting' := evicted, waiting + [n];
    }
  }

  /** The do-while of lru_evict: rounds from the LRU front while the
    * predicate holds of current_size_ and nodes remain; it computes Scan and
    * resets the iterators of exactly the evicted nodes. */
  method DetachLoop<K, V>(stores0: Stores<K, V>, se: int -> bool, lru0: seq<Node<K>>, size0: int)
      returns (stores: Stores<K, V>, evicted: seq<Node<K>>, waiting: seq<Node<K>>, lru: seq<Node<K>>, size: int)
    requires lru0 != [] && forall i | 0 <= i < |lru0| :: IsLinked(stores0, lru0[i])
    ensures Scan(stores0, se, lru0, size0, [], []) == Scanned(evicted, waiting, lru, size)
    ensures stores == Unlink(stores0, evicted)
  {
    ghost var goal := Scan(stores0, se, lru0, size0, [], []);
    stores, lru, size := stores0, lru0, size0;
    evicted := [];
    waiting := [];
    var more := true;
    while more
      invariant forall i | 0 <= i < |lru| :: IsLinked(stores0, lru[i])
      invariant stores == Unlink(stores0, evicted)
      invariant more ==> |lru| > 0 && Scan(stores0, se, lru, size, evicted, waiting) == goal
      invariant !more ==> goal == Scanned(evicted, waiting, lru, size)
      decreases |lru|, more
    {
      ScanFront(stores0, se, lru, size, evicted, waiting);
      ghost var c := Front(stores0, lru, size, evicted, waiting);
      stores, lru, size, evicted, waiting := TakeFront(stores0, stores, lru, size, evicted, waiting);
      assert c.rest == lru && c.size == size && c.evicted == evicted && c.waiting == waiting;
      more := se(size) && lru != [];
    }
  }

  /** test_0 on the class: the printed values and the "Computing" lines. */
  method Test0() returns (values: seq<int>, computing: seq<Node<int>>)
    ensures values == [4, 16, 8, 16, 4, 8]
    ensures computing == [Node(0, 1), Node(1, 2), Node(1, 1), Node(0, 1), Node(0, 2)]
  {
    CacheSpec.Test0();
    var cache := new SizedCache<int, int>(2, Test0Policy());
    var a := cache.Get(Node(0, 1));
    var b := cache.Get(Node(1, 2));
    var c := cache.Get(Node(1, 1));
    var d := cache.Get(Node(1, 2));
    var e := cache.Get(Node(0, 1));
    var f := cache.Get(Node(0, 2));
    values := [a, b, c, d, e, f];
    computing := cache.log;
  }
}
