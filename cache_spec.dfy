/**
 * The state machine behind ThreadSafeCacheSized2 (misc/shared_map_2.cpp) with
 * the locks and futures taken out: one map per key type, a single LRU list of
 * tagged keys shared by all key types, a pending/ready state per entry and a
 * running size counter.  Every operation is a function from state to state;
 * the class in cache.dfy runs the same steps in place.
 */
module CacheSpec {

  /** A key tagged with its key type: `tag` picks the LockedMap, as KeySet's variant index does. */
  datatype Node<K> = Node(tag: nat, key: K)

  /** SizedValue: a computed value together with the size the policy gave it. */
  datatype Sized<V> = Sized(value: V, size: nat)

  /** The state of an entry's shared future: its task has not run yet, or it has. */
  datatype Future<V> = Pending | Ready(sized: Sized<V>)

  /** Entry: the future and whether the entry's iterator still points into the LRU
    * list (`linked == false` is the LRUiterator{} sentinel set by eviction). */
  datatype Entry<V> = Entry(future: Future<V>, linked: bool)

  /** Policy::compute, Policy::size and Policy::should_evict. */
  datatype Policy<!K, !V> = Policy(compute: (nat, K) -> V, size: V -> nat, shouldEvict: int -> bool)

  /** One map per key type, indexed by tag. */
  type Stores<K, V> = seq<map<K, Entry<V>>>

  /** The whole cache.  `computed` logs every call of Policy::compute (its "Computing" line). */
  datatype State<K, V> = State(stores: Stores<K, V>, lru: seq<Node<K>>, currentSize: int, computed: seq<Node<K>>)

  function Empty<K, V>(keyTypes: nat): (st: State<K, V>)
    ensures |st.stores| == keyTypes && st.lru == [] && st.currentSize == 0
    ensures forall t | 0 <= t < keyTypes :: st.stores[t] == map[]
  {
    State(seq(keyTypes, _ => map[]), [], 0, [])
  }

  predicate Present<K, V>(stores: Stores<K, V>, n: Node<K>) {
    n.tag < |stores| && n.key in stores[n.tag]
  }

  function Lookup<K, V>(stores: Stores<K, V>, n: Node<K>): Entry<V>
    requires Present(stores, n)
  {
    stores[n.tag][n.key]
  }

  predicate IsLinked<K, V>(stores: Stores<K, V>, n: Node<K>) {
    Present(stores, n) && Lookup(stores, n).linked
  }

  predicate IsReady<K, V>(stores: Stores<K, V>, n: Node<K>) {
    Present(stores, n) && Lookup(stores, n).future.Ready?
  }

  /** What a node contributes to current_size_: its value's size once its task has run. */
  function ReadySize<K, V>(stores: Stores<K, V>, n: Node<K>): nat {
    if IsReady(stores, n) then Lookup(stores, n).future.sized.size else 0
  }

  function ListSize<K, V>(stores: Stores<K, V>, s: seq<Node<K>>): nat {
    if s == [] then 0 else ReadySize(stores, s[0]) + ListSize(stores, s[1..])
  }

  ghost predicate NoDup<T>(s: seq<T>) {
    forall i, j | 0 <= i < j < |s| :: s[i] != s[j]
  }

  function MakeSized<K, V>(p: Policy<K, V>, v: V): Sized<V> {
    Sized(v, p.size(v))
  }

  /** A ready entry holds what its own key computes to; an unlinked entry is ready. */
  ghost predicate EntryOk<K, V>(p: Policy<K, V>, t: nat, k: K, e: Entry<V>) {
    && (e.future.Ready? ==> e.future.sized == MakeSized(p, p.compute(t, k)))
    && (!e.linked ==> e.future.Ready?)
  }

  /**
   * The cache invariant, which also holds in the middle of a Pop:
   * list nodes are distinct and name present, linked entries; every linked
   * entry has its node in the list; entries agree with the policy; and the
   * size counter is the sum of the sizes of the ready entries in the list.
   */
  ghost predicate Inv<K, V>(st: State<K, V>, p: Policy<K, V>) {
    && NoDup(st.lru)
    && (forall i | 0 <= i < |st.lru| :: IsLinked(st.stores, st.lru[i]))
    && (forall t: nat, k: K | 0 <= t < |st.stores| && k in st.stores[t] && st.stores[t][k].linked :: Node(t, k) in st.lru)
    && (forall t: nat, k: K | 0 <= t < |st.stores| && k in st.stores[t] :: EntryOk(p, t, k, st.stores[t][k]))
    && st.currentSize == ListSize(st.stores, st.lru)
  }

  /** Between operations, additionally no entry waits to be erased: every map
    * entry has exactly one list node. */
  ghost predicate Settled<K, V>(st: State<K, V>, p: Policy<K, V>) {
    && Inv(st, p)
    && (forall t: nat, k: K | 0 <= t < |st.stores| && k in st.stores[t] :: st.stores[t][k].linked)
  }

  // ---------------------------------------------------------------- lru_visit

  /** Drop the first occurrence of `x`. */
  function Remove<T(==)>(s: seq<T>, x: T): seq<T> {
    if s == [] then [] else if s[0] == x then s[1..] else [s[0]] + Remove(s[1..], x)
  }

  /** lru_list.splice(end, lru_list, iterator): move the node to the MRU end. */
  function MoveToBack<T(==)>(s: seq<T>, x: T): seq<T> {
    Remove(s, x) + [x]
  }

  datatype Step<K, V> = Step(state: State<K, V>, future: Future<V>)

  /** lru_visit: splice the node to the MRU end unless it is marked for eviction;
    * answer the entry's future. */
  function Visit<K(==), V>(st: State<K, V>, n: Node<K>): (r: Step<K, V>)
    requires Present(st.stores, n)
    ensures r.state.stores == st.stores && r.state.currentSize == st.currentSize
    ensures r.state.computed == st.computed
    ensures r.future == Lookup(st.stores, n).future
    ensures !Lookup(st.stores, n).linked ==> r.state.lru == st.lru
  {
    var e := Lookup(st.stores, n);
    Step(if e.linked then st.(lru := MoveToBack(st.lru, n)) else st, e.future)
  }

  // --------------------------------------------------- try_insert, GetFuture

  /** The shared phase of try_insert: a present key is visited (`exist`), nothing else happens. */
  function Probe<K(==), V>(st: State<K, V>, n: Node<K>): (r: (State<K, V>, bool))
    ensures r.1 == Present(st.stores, n)
    ensures !r.1 ==> r.0 == st
    ensures r.1 ==> r.0 == Visit(st, n).state
  {
    if Present(st.stores, n) then (Visit(st, n).state, true) else (st, false)
  }

  datatype Acquired<K, V> = Acquired(state: State<K, V>, future: Future<V>, inserted: bool)

  /**
   * The exclusive phase of try_insert: try_emplace, then `init` (lru_init) on a
   * fresh entry, or `exist` (lru_visit) when another caller inserted the key
   * after the shared probe, in which case the prepared task is dropped.
   */
  function Acquire<K(==), V>(st: State<K, V>, n: Node<K>): (r: Acquired<K, V>)
    requires n.tag < |st.stores|
    ensures r.inserted == !Present(st.stores, n)
    ensures !r.inserted ==> r.state == Visit(st, n).state && r.future == Lookup(st.stores, n).future
    ensures r.inserted ==> && r.state.lru == st.lru + [n]
                           && r.state.stores == st.stores[n.tag := st.stores[n.tag][n.key := Entry(Pending, true)]]
                           && r.future == Pending
    ensures r.state.currentSize == st.currentSize && r.state.computed == st.computed
  {
    if Present(st.stores, n) then
      var v := Visit(st, n);
      Acquired(v.state, v.future, false)
    else
      var stores := st.stores[n.tag := st.stores[n.tag][n.key := Entry(Pending, true)]];
      Acquired(st.(stores := stores, lru := st.lru + [n]), Pending, true)
  }

  /** `exit`: run the packaged task once; its size function adds to current_size_. */
  function RunTask<K(==), V>(st: State<K, V>, p: Policy<K, V>, n: Node<K>): (r: Step<K, V>)
    requires Present(st.stores, n) && Lookup(st.stores, n).future.Pending?
    ensures r.future == Ready(MakeSized(p, p.compute(n.tag, n.key)))
    ensures r.state.currentSize == st.currentSize + p.size(p.compute(n.tag, n.key))
    ensures r.state.computed == st.computed + [n]
    ensures r.state.lru == st.lru
    ensures r.state.stores == st.stores[n.tag := st.stores[n.tag][n.key := Lookup(st.stores, n).(future := r.future)]]
  {
    var sized := MakeSized(p, p.compute(n.tag, n.key));
    var e := Lookup(st.stores, n).(future := Ready(sized));
    Step(State(st.stores[n.tag := st.stores[n.tag][n.key := e]], st.lru, st.currentSize + sized.size, st.computed + [n]),
         Ready(sized))
  }

  /** GetFuture run without interference: probe, then acquire, then run the task on a fresh key. */
  function GetFuture<K(==), V>(st: State<K, V>, p: Policy<K, V>, n: Node<K>): Step<K, V>
    requires n.tag < |st.stores|
  {
    var probed := Probe(st, n);
    if probed.1 then Step(probed.0, Lookup(st.stores, n).future)
    else
      var a := Acquire(probed.0, n);
      if !a.inserted then Step(a.state, a.future) else RunTask(a.state, p, n)
  }

  // ---------------------------------------------------------------- lru_evict

  datatype Scanned<K> = Scanned(evicted: seq<Node<K>>, waiting: seq<Node<K>>, rest: seq<Node<K>>, size: int)

  /**
   * The do-while of lru_evict from the node `s[0]` on, `size` being
   * current_size_: a ready node is evicted and its size subtracted, an unready
   * one goes to the waiting list; the loop goes on while the predicate holds of
   * the new size and nodes remain.
   */
  function Scan<K, V>(stores: Stores<K, V>, shouldEvict: int -> bool, s: seq<Node<K>>, size: int,
                      evicted: seq<Node<K>>, waiting: seq<Node<K>>): Scanned<K>
    requires |s| > 0
    decreases |s|
  {
    var n := s[0];
    var size' := size - ReadySize(stores, n);
    var ev := if IsReady(stores, n) then evicted + [n] else evicted;
    var wt := if IsReady(stores, n) then waiting else waiting + [n];
    if shouldEvict(size') && |s| > 1 then Scan(stores, shouldEvict, s[1..], size', ev, wt)
    else Scanned(ev, wt, s[1..], size')
  }

  /** One round of the do-while: the node at the front of `s` is taken; a
    * ready one joins the evicted and gives back its size, an unready one is
    * set aside. */
  function Front<K, V>(stores: Stores<K, V>, s: seq<Node<K>>, size: int,
                       evicted: seq<Node<K>>, waiting: seq<Node<K>>): (r: Scanned<K>)
    requires |s| > 0
  {
    var n := s[0];
    if IsReady(stores, n) then Scanned(evicted + [n], waiting, s[1..], size - ReadySize(stores, n))
    else Scanned(evicted, waiting + [n], s[1..], size)
  }

  /** The scan goes on after one round exactly when the predicate holds of
    * the new size and nodes remain. */
  lemma ScanFront<K, V>(stores: Stores<K, V>, se: int -> bool, s: seq<Node<K>>, size: int,
                        ev: seq<Node<K>>, wt: seq<Node<K>>)
    requires |s| > 0
    ensures var c := Front(stores, s, size, ev, wt);
            && (se(c.size) && c.rest != [] ==> Scan(stores, se, s, size, ev, wt) == Scan(stores, se, c.rest, c.size, c.evicted, c.waiting))
            && (!(se(c.size) && c.rest != []) ==> Scan(stores, se, s, size, ev, wt) == c)
  {
  }

  /** The ready nodes of `s`, in order. */
  function ReadyOf<K, V>(stores: Stores<K, V>, s: seq<Node<K>>): seq<Node<K>> {
    if s == [] then [] else (if IsReady(stores, s[0]) then [s[0]] else []) + ReadyOf(stores, s[1..])
  }

  /** The unready nodes of `s`, in order. */
  function UnreadyOf<K, V>(stores: Stores<K, V>, s: seq<Node<K>>): seq<Node<K>> {
    if s == [] then [] else (if IsReady(stores, s[0]) then [] else [s[0]]) + UnreadyOf(stores, s[1..])
  }

  /** entry.iterator = LRUiterator{} for one node. */
  function Mark<K, V>(stores: Stores<K, V>, n: Node<K>): Stores<K, V> {
    if Present(stores, n) then stores[n.tag := stores[n.tag][n.key := Lookup(stores, n).(linked := false)]] else stores
  }

  /** Mark every node of `ev`, in order. */
  function Unlink<K, V>(stores: Stores<K, V>, ev: seq<Node<K>>): (r: Stores<K, V>)
    decreases |ev|
    ensures |r| == |stores|
  {
    if ev == [] then stores else Mark(Unlink(stores, ev[..|ev| - 1]), ev[|ev| - 1])
  }

  /** Marking keeps every key and clears exactly the linked flags of the nodes in `ev`. */
  lemma {:induction false} UnlinkEntries<K, V>(stores: Stores<K, V>, ev: seq<Node<K>>)
    ensures var r := Unlink(stores, ev);
            && (forall t: nat, k: K | 0 <= t < |r| && k in r[t] :: k in stores[t])
            && (forall t: nat, k: K | 0 <= t < |stores| && k in stores[t] ::
                  k in r[t] && r[t][k] == stores[t][k].(linked := stores[t][k].linked && Node(t, k) !in ev))
    decreases |ev|
  {
    if ev != [] {
      var init := ev[..|ev| - 1];
      assert ev == init + [ev[|ev| - 1]];
      UnlinkEntries(stores, init);
    }
  }

  /** Marking keeps every key and every future: only the linked flags change. */
  lemma {:induction false} UnlinkKeeps<K, V>(stores: Stores<K, V>, ev: seq<Node<K>>, n: Node<K>)
    requires Present(stores, n)
    ensures Present(Unlink(stores, ev), n)
    ensures Lookup(Unlink(stores, ev), n).future == Lookup(stores, n).future
    decreases |ev|
  {
    if ev != [] {
      UnlinkKeeps(stores, ev[..|ev| - 1], n);
    }
  }

  /** Marking one more node is Mark on the stores marked so far. */
  lemma UnlinkSnoc<K, V>(stores: Stores<K, V>, ev: seq<Node<K>>, n: Node<K>)
    ensures Unlink(stores, ev + [n]) == Mark(Unlink(stores, ev), n)
  {
    assert (ev + [n])[..|ev|] == ev;
  }

  /** LockedMap::erase on the map of the node's own key type. */
  function EraseKey<K, V>(stores: Stores<K, V>, n: Node<K>): Stores<K, V> {
    if n.tag < |stores| then stores[n.tag := stores[n.tag] - {n.key}] else stores
  }

  /** The free-list loop: erase every evicted key from its own map, in order. */
  function EraseAll<K, V>(stores: Stores<K, V>, f: seq<Node<K>>): (r: Stores<K, V>)
    decreases |f|
    ensures |r| == |stores|
  {
    if f == [] then stores else EraseKey(EraseAll(stores, f[..|f| - 1]), f[|f| - 1])
  }

  /** The free list loop removes exactly the keys of the listed nodes, keeps the
    * other entries as they were, and leaves the maps of other key types alone. */
  lemma {:induction false} EraseAllEntries<K, V>(stores: Stores<K, V>, f: seq<Node<K>>)
    ensures var r := EraseAll(stores, f);
            && (forall t: nat, k: K | 0 <= t < |stores| && k in stores[t] && Node(t, k) in f :: k !in r[t])
            && (forall t: nat, k: K | 0 <= t < |stores| && k in stores[t] && Node(t, k) !in f :: k in r[t])
            && (forall t: nat, k: K | 0 <= t < |r| && k in r[t] :: k in stores[t] && r[t][k] == stores[t][k])
            && (forall t | 0 <= t < |stores| && (forall j | 0 <= j < |f| :: f[j].tag != t) :: r[t] == stores[t])
    decreases |f|
  {
    if f != [] {
      var init := f[..|f| - 1];
      assert f == init + [f[|f| - 1]];
      assert forall j | 0 <= j < |init| :: init[j] == f[j];
      EraseAllEntries(stores, init);
    }
  }

  /** Erasing one more node is EraseKey on the maps erased so far. */
  lemma EraseSnoc<K, V>(stores: Stores<K, V>, f: seq<Node<K>>, n: Node<K>)
    ensures EraseAll(stores, f + [n]) == EraseKey(EraseAll(stores, f), n)
  {
    assert (f + [n])[..|f|] == f;
  }

  /** lru_evict up to its free list: nothing when the predicate is false or the
    * list is empty; otherwise scan, mark the evicted entries and put the
    * waiting nodes back at the MRU end. */
  function Evict<K, V>(st: State<K, V>, p: Policy<K, V>): (State<K, V>, seq<Node<K>>)
  {
    if !p.shouldEvict(st.currentSize) || st.lru == [] then (st, [])
    else
      var r := Scan(st.stores, p.shouldEvict, st.lru, st.currentSize, [], []);
      (st.(stores := Unlink(st.stores, r.evicted), lru := r.rest + r.waiting, currentSize := r.size), r.evicted)
  }

  /** Pop: lru_evict with should_evict(current_size_) and the readiness test, then
    * the erasure of the free list. */
  function Pop<K, V>(st: State<K, V>, p: Policy<K, V>): State<K, V>
  {
    var e := Evict(st, p);
    e.0.(stores := EraseAll(e.0.stores, e.1))
  }

  /** future.get().value: a pending future stands for the wait on the task of the
    * caller that inserted the key, which delivers compute(key). */
  function FutureValue<K, V>(p: Policy<K, V>, n: Node<K>, f: Future<V>): V {
    if f.Ready? then f.sized.value else p.compute(n.tag, n.key)
  }

  /** Get: GetFuture, then Pop, then the future's value. */
  function Get<K(==), V>(st: State<K, V>, p: Policy<K, V>, n: Node<K>): (State<K, V>, V)
    requires n.tag < |st.stores|
  {
    var g := GetFuture(st, p, n);
    (Pop(g.state, p), FutureValue(p, n, g.future))
  }

  // ================================================================ lemmas

  lemma {:induction false} RemoveAt<T>(s: seq<T>, i: nat)
    requires NoDup(s) && i < |s|
    ensures Remove(s, s[i]) == s[..i] + s[i + 1..]
    decreases |s|
  {
    if i > 0 {
      assert s[0] != s[i];
      RemoveAt(s[1..], i - 1);
      assert s[1..][i - 1] == s[i];
      assert s[1..][..i - 1] + s[1..][i..] == s[1..i] + s[i + 1..];
      assert [s[0]] + s[1..i] == s[..i];
    }
  }

  /** lru_visit moves the visited node from its position to the MRU end; the
    * other nodes keep their relative order. */
  lemma VisitMovesToBack<K, V>(st: State<K, V>, p: Policy<K, V>, n: Node<K>, i: nat)
    requires Inv(st, p) && i < |st.lru| && st.lru[i] == n
    ensures Present(st.stores, n)
    ensures Visit(st, n).state.lru == st.lru[..i] + st.lru[i + 1..] + [n]
  {
    RemoveAt(st.lru, i);
  }

  lemma {:induction false} ListSizeAppend<K, V>(stores: Stores<K, V>, a: seq<Node<K>>, b: seq<Node<K>>)
    ensures ListSize(stores, a + b) == ListSize(stores, a) + ListSize(stores, b)
    decreases |a|
  {
    if a == [] {
      assert a + b == b;
    } else {
      assert (a + b)[0] == a[0];
      assert (a + b)[1..] == a[1..] + b;
      ListSizeAppend(stores, a[1..], b);
    }
  }

  /** ListSize depends only on the ready sizes of the nodes listed. */
  lemma {:induction false} ListSizeFrame<K, V>(s1: Stores<K, V>, s2: Stores<K, V>, s: seq<Node<K>>)
    requires forall i | 0 <= i < |s| :: ReadySize(s1, s[i]) == ReadySize(s2, s[i])
    ensures ListSize(s1, s) == ListSize(s2, s)
    decreases |s|
  {
    if s != [] {
      assert ReadySize(s1, s[0]) == ReadySize(s2, s[0]);
      ListSizeFrame(s1, s2, s[1..]);
    }
  }

  lemma {:induction false} ListSizeRemove<K, V>(stores: Stores<K, V>, s: seq<Node<K>>, x: Node<K>)
    requires x in s
    ensures ListSize(stores, s) == ListSize(stores, Remove(s, x)) + ReadySize(stores, x)
    decreases |s|
  {
    if s[0] != x {
      ListSizeRemove(stores, s[1..], x);
      assert Remove(s, x) == [s[0]] + Remove(s[1..], x);
      ListSizeAppend(stores, [s[0]], Remove(s[1..], x));
    }
  }

  lemma {:induction false} RemoveMembers<T>(s: seq<T>, x: T)
    requires NoDup(s)
    ensures NoDup(Remove(s, x))
    ensures forall y | y in Remove(s, x) :: y in s && y != x
    ensures forall y | y in s && y != x :: y in Remove(s, x)
    decreases |s|
  {
    if s != [] {
      RemoveMembers(s[1..], x);
      if s[0] != x {
        assert s[0] !in s[1..] by {
          forall j | 0 <= j < |s[1..]| ensures s[1..][j] != s[0] { assert s[j + 1] == s[1..][j]; }
        }
      }
    }
  }

  /** The three list folds on a list with a known head. */
  lemma ConsParts<K, V>(stores: Stores<K, V>, n: Node<K>, t: seq<Node<K>>)
    ensures ReadyOf(stores, [n] + t) == (if IsReady(stores, n) then [n] else []) + ReadyOf(stores, t)
    ensures UnreadyOf(stores, [n] + t) == (if IsReady(stores, n) then [] else [n]) + UnreadyOf(stores, t)
    ensures ListSize(stores, [n] + t) == ReadySize(stores, n) + ListSize(stores, t)
  {
    assert ([n] + t)[0] == n && ([n] + t)[1..] == t;
  }

  lemma {:induction false} ReadyMembers<K, V>(stores: Stores<K, V>, s: seq<Node<K>>)
    ensures forall y | y in ReadyOf(stores, s) :: y in s && IsReady(stores, y)
    ensures forall y | y in s && IsReady(stores, y) :: y in ReadyOf(stores, s)
    ensures forall y | y in UnreadyOf(stores, s) :: y in s && !IsReady(stores, y)
    ensures forall y | y in s && !IsReady(stores, y) :: y in UnreadyOf(stores, s)
    decreases |s|
  {
    if s != [] {
      ReadyMembers(stores, s[1..]);
      assert s == [s[0]] + s[1..];
    }
  }

  lemma {:induction false} ReadyNoDup<K, V>(stores: Stores<K, V>, s: seq<Node<K>>)
    requires NoDup(s)
    ensures NoDup(ReadyOf(stores, s)) && NoDup(UnreadyOf(stores, s))
    decreases |s|
  {
    if s != [] {
      assert NoDup(s[1..]) by {
        forall i, j | 0 <= i < j < |s[1..]| ensures s[1..][i] != s[1..][j] { assert s[1..][i] == s[i + 1] && s[1..][j] == s[j + 1]; }
      }
      ReadyNoDup(stores, s[1..]);
      ReadyMembers(stores, s[1..]);
      assert s[0] !in s[1..] by {
        forall j | 0 <= j < |s[1..]| ensures s[1..][j] != s[0] { assert s[j + 1] == s[1..][j]; }
      }
      NoDupCons(s[0], ReadyOf(stores, s[1..]));
      NoDupCons(s[0], UnreadyOf(stores, s[1..]));
    }
  }

  lemma {:induction false} ReadySizes<K, V>(stores: Stores<K, V>, s: seq<Node<K>>)
    ensures ListSize(stores, ReadyOf(stores, s)) == ListSize(stores, s)
    ensures ListSize(stores, UnreadyOf(stores, s)) == 0
    decreases |s|
  {
    if s != [] {
      ReadySizes(stores, s[1..]);
      var h := if IsReady(stores, s[0]) then [s[0]] else [];
      var g := if IsReady(stores, s[0]) then [] else [s[0]];
      ListSizeAppend(stores, h, ReadyOf(stores, s[1..]));
      ListSizeAppend(stores, g, UnreadyOf(stores, s[1..]));
      assert ListSize(stores, h) == ReadySize(stores, s[0]);
      assert ListSize(stores, g) == 0;
    }
  }

  lemma NoDupCons<T>(x: T, s: seq<T>)
    requires NoDup(s)
    ensures x !in s ==> NoDup([x] + s)
  {
    if x !in s {
      forall i, j | 0 <= i < j < |[x] + s| ensures ([x] + s)[i] != ([x] + s)[j] {
        if i > 0 { assert ([x] + s)[i] == s[i - 1]; }
        assert ([x] + s)[j] == s[j - 1];
      }
    }
  }

  lemma NoDupAppend<T>(a: seq<T>, b: seq<T>)
    requires NoDup(a) && NoDup(b) && forall y :: y in a ==> y !in b
    ensures NoDup(a + b)
  {
    forall i, j | 0 <= i < j < |a + b| ensures (a + b)[i] != (a + b)[j] {
      if j >= |a| && i < |a| {
        assert (a + b)[i] in a && (a + b)[j] == b[j - |a|];
      } else if i >= |a| {
        assert (a + b)[i] == b[i - |a|] && (a + b)[j] == b[j - |a|];
      }
    }
  }

  /** How many nodes a scan of `s` took off the front of the list. */
  function Taken<K>(s: seq<Node<K>>, r: Scanned<K>): int {
    |s| - |r.rest|
  }

  /** The scan takes a non-empty prefix of the list: it goes from the LRU front. */
  lemma {:induction false} ScanRest<K, V>(stores: Stores<K, V>, se: int -> bool, s: seq<Node<K>>, size: int,
                                          ev0: seq<Node<K>>, wt0: seq<Node<K>>)
    requires |s| > 0
    ensures var r := Scan(stores, se, s, size, ev0, wt0);
            1 <= Taken(s, r) && r.rest == s[Taken(s, r)..]
    decreases |s|
  {
    var n := s[0];
    var size' := size - ReadySize(stores, n);
    if se(size') && |s| > 1 {
      var ev := if IsReady(stores, n) then ev0 + [n] else ev0;
      var wt := if IsReady(stores, n) then wt0 else wt0 + [n];
      ScanRest(stores, se, s[1..], size', ev, wt);
    }
  }

  /** It evicts exactly the ready nodes of that prefix and sets aside exactly
    * the unready ones, both in list order, and subtracts the evicted sizes. */
  lemma ScanParts<K, V>(stores: Stores<K, V>, se: int -> bool, s: seq<Node<K>>, size: int,
                        ev0: seq<Node<K>>, wt0: seq<Node<K>>)
    requires |s| > 0
    ensures var r := Scan(stores, se, s, size, ev0, wt0);
            var m := Taken(s, r);
            && 1 <= m <= |s|
            && r.evicted == ev0 + ReadyOf(stores, s[..m])
            && r.waiting == wt0 + UnreadyOf(stores, s[..m])
            && r.size + ListSize(stores, s[..m]) == size
  {
    ScanRest(stores, se, s, size, ev0, wt0);
    var m := Taken(s, Scan(stores, se, s, size, ev0, wt0));
    assert s == s[..m] + s[m..];
    ScanEvicted(stores, se, s, size, ev0, wt0, s[..m]);
    ScanWaiting(stores, se, s, size, ev0, wt0, s[..m]);
    ScanSize(stores, se, s, size, ev0, wt0, s[..m]);
  }

  /** When `pre` is what the scan of `s` takes, the first round takes `pre[0]`
    * and the scan stops there when `pre` has one node, and otherwise goes on
    * from `s[1..]`, taking `pre[1..]`. */
  lemma ScanUnfold<K, V>(stores: Stores<K, V>, se: int -> bool, s: seq<Node<K>>, size: int,
                         ev0: seq<Node<K>>, wt0: seq<Node<K>>, pre: seq<Node<K>>)
    requires |s| > 0 && |pre| > 0 && s == pre + Scan(stores, se, s, size, ev0, wt0).rest
    ensures var c := Front(stores, s, size, ev0, wt0);
            && pre[0] == s[0] && c.rest == s[1..]
            && (|pre| == 1 ==> Scan(stores, se, s, size, ev0, wt0) == c)
            && (|pre| > 1 ==> |c.rest| > 0
                              && Scan(stores, se, s, size, ev0, wt0) == Scan(stores, se, c.rest, c.size, c.evicted, c.waiting)
                              && c.rest == pre[1..] + Scan(stores, se, c.rest, c.size, c.evicted, c.waiting).rest)
  {
    var c := Front(stores, s, size, ev0, wt0);
    ScanFront(stores, se, s, size, ev0, wt0);
    if se(c.size) && c.rest != [] {
      ScanRest(stores, se, c.rest, c.size, c.evicted, c.waiting);
      assert |pre| > 1;
    }
  }

  lemma {:induction false} ScanEvicted<K, V>(stores: Stores<K, V>, se: int -> bool, s: seq<Node<K>>, size: int,
                                           ev0: seq<Node<K>>, wt0: seq<Node<K>>, pre: seq<Node<K>>)
    requires |s| > 0 && |pre| > 0 && s == pre + Scan(stores, se, s, size, ev0, wt0).rest
    ensures Scan(stores, se, s, size, ev0, wt0).evicted == ev0 + ReadyOf(stores, pre)
    decreases |s|
  {
    ScanUnfold(stores, se, s, size, ev0, wt0, pre);
    var c := Front(stores, s, size, ev0, wt0);
    var x := ReadyOf(stores, pre[1..]);
    assert ReadyOf(stores, pre) == (if IsReady(stores, s[0]) then [s[0]] else []) + x;
    if |pre| > 1 {
      ScanEvicted(stores, se, c.rest, c.size, c.evicted, c.waiting, pre[1..]);
      if IsReady(stores, s[0]) {
        assert ev0 + ([s[0]] + x) == (ev0 + [s[0]]) + x;
      } else {
        assert [] + x == x;
      }
    } else {
      assert x == [];
    }
  }

  lemma {:induction false} ScanWaiting<K, V>(stores: Stores<K, V>, se: int -> bool, s: seq<Node<K>>, size: int,
                                           ev0: seq<Node<K>>, wt0: seq<Node<K>>, pre: seq<Node<K>>)
    requires |s| > 0 && |pre| > 0 && s == pre + Scan(stores, se, s, size, ev0, wt0).rest
    ensures Scan(stores, se, s, size, ev0, wt0).waiting == wt0 + UnreadyOf(stores, pre)
    decreases |s|
  {
    ScanUnfold(stores, se, s, size, ev0, wt0, pre);
    var c := Front(stores, s, size, ev0, wt0);
    var x := UnreadyOf(stores, pre[1..]);
    assert UnreadyOf(stores, pre) == (if IsReady(stores, s[0]) then [] else [s[0]]) + x;
    if |pre| > 1 {
      ScanWaiting(stores, se, c.rest, c.size, c.evicted, c.waiting, pre[1..]);
      if !IsReady(stores, s[0]) {
        assert wt0 + ([s[0]] + x) == (wt0 + [s[0]]) + x;
      } else {
        assert [] + x == x;
      }
    } else {
      assert x == [];
    }
  }

  lemma {:induction false} ScanSize<K, V>(stores: Stores<K, V>, se: int -> bool, s: seq<Node<K>>, size: int,
                                          ev0: seq<Node<K>>, wt0: seq<Node<K>>, pre: seq<Node<K>>)
    requires |s| > 0 && |pre| > 0 && s == pre + Scan(stores, se, s, size, ev0, wt0).rest
    ensures Scan(stores, se, s, size, ev0, wt0).size + ListSize(stores, pre) == size
    decreases |s|
  {
    ScanUnfold(stores, se, s, size, ev0, wt0, pre);
    var c := Front(stores, s, size, ev0, wt0);
    assert ListSize(stores, pre) == ReadySize(stores, s[0]) + ListSize(stores, pre[1..]);
    if |pre| > 1 {
      ScanSize(stores, se, c.rest, c.size, c.evicted, c.waiting, pre[1..]);
    } else {
      assert ListSize(stores, pre[1..]) == 0;
    }
  }

  /** It stops because the predicate fails or the list is exhausted, so it
    * terminates even when the predicate is always true. */
  lemma {:induction false} ScanStops<K, V>(stores: Stores<K, V>, se: int -> bool, s: seq<Node<K>>, size: int,
                                           ev0: seq<Node<K>>, wt0: seq<Node<K>>)
    requires |s| > 0
    ensures var r := Scan(stores, se, s, size, ev0, wt0);
            !se(r.size) || r.rest == []
    decreases |s|
  {
    var n := s[0];
    var size' := size - ReadySize(stores, n);
    if se(size') && |s| > 1 {
      var ev := if IsReady(stores, n) then ev0 + [n] else ev0;
      var wt := if IsReady(stores, n) then wt0 else wt0 + [n];
      ScanStops(stores, se, s[1..], size', ev, wt);
    }
  }

  /** It re-checks the predicate after every node: it went on past the j-th
    * node only because the predicate held of the size at that point. */
  lemma {:induction false} ScanRechecks<K, V>(stores: Stores<K, V>, se: int -> bool, s: seq<Node<K>>, size: int,
                                              ev0: seq<Node<K>>, wt0: seq<Node<K>>, j: nat)
    requires |s| > 0
    requires 1 <= j < Taken(s, Scan(stores, se, s, size, ev0, wt0))
    ensures se(size - ListSize(stores, s[..j]))
    decreases |s|
  {
    var n := s[0];
    var size' := size - ReadySize(stores, n);
    var ev := if IsReady(stores, n) then ev0 + [n] else ev0;
    var wt := if IsReady(stores, n) then wt0 else wt0 + [n];
    var t := s[1..];
    assert se(size') && |s| > 1;
    assert s[..j] == [n] + t[..j - 1];
    ConsParts(stores, n, t[..j - 1]);
    if j > 1 {
      ScanRechecks(stores, se, t, size', ev, wt, j - 1);
    }
  }

  lemma LinkedMember<K, V>(st: State<K, V>, p: Policy<K, V>, y: Node<K>)
    requires Inv(st, p) && y in st.lru
    ensures IsLinked(st.stores, y)
  {
    var q :| 0 <= q < |st.lru| && st.lru[q] == y;
  }

  lemma SettledEntry<K, V>(st: State<K, V>, p: Policy<K, V>, n: Node<K>)
    requires Settled(st, p) && Present(st.stores, n)
    ensures IsLinked(st.stores, n) && n in st.lru
  {
    assert st.stores[n.tag][n.key].linked;
  }

  /** lru_visit keeps the invariant, settled or not. */
  lemma VisitInv<K, V>(st: State<K, V>, p: Policy<K, V>, n: Node<K>)
    requires Inv(st, p) && Present(st.stores, n)
    ensures Inv(Visit(st, n).state, p)
    ensures Settled(st, p) ==> Settled(Visit(st, n).state, p)
  {
    if Lookup(st.stores, n).linked {
      MoveToBackInv(st, p, n);
    }
  }

  lemma MoveToBackInv<K, V>(st: State<K, V>, p: Policy<K, V>, n: Node<K>)
    requires Inv(st, p) && IsLinked(st.stores, n)
    ensures Inv(st.(lru := MoveToBack(st.lru, n)), p)
  {
    MoveToBackParts(st, p, n);
    MoveToBackCovers(st, p, n);
  }

  lemma MoveToBackParts<K, V>(st: State<K, V>, p: Policy<K, V>, n: Node<K>)
    requires Inv(st, p) && IsLinked(st.stores, n)
    ensures NoDup(MoveToBack(st.lru, n))
    ensures ListSize(st.stores, MoveToBack(st.lru, n)) == st.currentSize
    ensures forall j | 0 <= j < |MoveToBack(st.lru, n)| :: IsLinked(st.stores, MoveToBack(st.lru, n)[j])
  {
    RemoveMembers(st.lru, n);
    NoDupAppend(Remove(st.lru, n), [n]);
    MoveToBackSize(st, p, n);
    MoveToBackLinked(st, p, n);
  }

  lemma MoveToBackSize<K, V>(st: State<K, V>, p: Policy<K, V>, n: Node<K>)
    requires Inv(st, p) && IsLinked(st.stores, n)
    ensures ListSize(st.stores, MoveToBack(st.lru, n)) == st.currentSize
  {
    assert n in st.lru;
    ListSizeRemove(st.stores, st.lru, n);
    ListSizeAppend(st.stores, Remove(st.lru, n), [n]);
    assert ListSize(st.stores, [n]) == ReadySize(st.stores, n);
  }

  lemma MoveToBackLinked<K, V>(st: State<K, V>, p: Policy<K, V>, n: Node<K>)
    requires Inv(st, p) && IsLinked(st.stores, n)
    ensures forall j | 0 <= j < |MoveToBack(st.lru, n)| :: IsLinked(st.stores, MoveToBack(st.lru, n)[j])
  {
    var rest := Remove(st.lru, n);
    var s' := rest + [n];
    RemoveMembers(st.lru, n);
    forall j | 0 <= j < |s'| ensures IsLinked(st.stores, s'[j]) {
      if j < |rest| {
        assert s'[j] == rest[j] && rest[j] in rest;
        LinkedMember(st, p, s'[j]);
      }
    }
  }

  lemma MoveToBackCovers<K, V>(st: State<K, V>, p: Policy<K, V>, n: Node<K>)
    requires Inv(st, p) && IsLinked(st.stores, n)
    ensures forall t: nat, k: K | 0 <= t < |st.stores| && k in st.stores[t] && st.stores[t][k].linked :: Node(t, k) in MoveToBack(st.lru, n)
  {
    var stores: Stores<K, V> := st.stores;
    var rest := Remove(st.lru, n);
    RemoveMembers(st.lru, n);
    forall t: nat, k: K | 0 <= t < |stores| && k in stores[t] && stores[t][k].linked ensures Node(t, k) in rest + [n] {
      assert Node(t, k) in st.lru;
      if Node(t, k) != n { assert Node(t, k) in rest; }
    }
  }

  /** The exclusive phase keeps the invariant. */
  lemma AcquireInv<K, V>(st: State<K, V>, p: Policy<K, V>, n: Node<K>)
    requires Inv(st, p) && n.tag < |st.stores|
    ensures Inv(Acquire(st, n).state, p)
    ensures Settled(st, p) ==> Settled(Acquire(st, n).state, p)
  {
    if Present(st.stores, n) {
      VisitInv(st, p, n);
    } else {
      InsertSize(st, p, n);
      InsertLinks(st, p, n);
      InsertEntries(st.stores, p, n);
    }
  }

  /** A fresh pending, linked entry agrees with the policy and is linked. */
  lemma InsertEntries<K, V>(stores: Stores<K, V>, p: Policy<K, V>, n: Node<K>)
    requires n.tag < |stores|
    requires forall t: nat, k: K | 0 <= t < |stores| && k in stores[t] :: EntryOk(p, t, k, stores[t][k])
    ensures var s := stores[n.tag := stores[n.tag][n.key := Entry(Pending, true)]];
            && (forall t: nat, k: K | 0 <= t < |s| && k in s[t] :: EntryOk(p, t, k, s[t][k]))
            && ((forall t: nat, k: K | 0 <= t < |stores| && k in stores[t] :: stores[t][k].linked) ==>
                forall t: nat, k: K | 0 <= t < |s| && k in s[t] :: s[t][k].linked)
  {
  }

  lemma InsertSize<K, V>(st: State<K, V>, p: Policy<K, V>, n: Node<K>)
    requires Inv(st, p) && n.tag < |st.stores| && !Present(st.stores, n)
    ensures NoDup(st.lru + [n])
    ensures ListSize(Acquire(st, n).state.stores, st.lru + [n]) == st.currentSize
  {
    var s: Stores<K, V> := Acquire(st, n).state.stores;
    assert n !in st.lru;
    NoDupAppend(st.lru, [n]);
    forall i | 0 <= i < |st.lru| ensures ReadySize(st.stores, st.lru[i]) == ReadySize(s, st.lru[i]) {
      assert IsLinked(st.stores, st.lru[i]);
    }
    ListSizeFrame(st.stores, s, st.lru);
    ListSizeAppend(s, st.lru, [n]);
    assert ListSize(s, [n]) == ReadySize(s, n) == 0;
  }

  lemma InsertLinks<K, V>(st: State<K, V>, p: Policy<K, V>, n: Node<K>)
    requires Inv(st, p) && n.tag < |st.stores| && !Present(st.stores, n)
    ensures var a := Acquire(st, n).state;
            && (forall i | 0 <= i < |a.lru| :: IsLinked(a.stores, a.lru[i]))
            && (forall t: nat, k: K | 0 <= t < |a.stores| && k in a.stores[t] && a.stores[t][k].linked :: Node(t, k) in a.lru)
  {
    var a := Acquire(st, n);
    var s: Stores<K, V> := a.state.stores;
    forall i | 0 <= i < |a.state.lru| ensures IsLinked(s, a.state.lru[i]) {
      if i < |st.lru| { assert IsLinked(st.stores, st.lru[i]); }
    }
    forall t: nat, k: K | 0 <= t < |s| && k in s[t] && s[t][k].linked ensures Node(t, k) in a.state.lru {
      if Node(t, k) != n { assert st.stores[t][k].linked; assert Node(t, k) in st.lru; }
    }
  }

  /** Running the task keeps the invariant: the entry turns ready and the counter grows by its size. */
  lemma RunTaskInv<K, V>(st: State<K, V>, p: Policy<K, V>, n: Node<K>)
    requires Inv(st, p) && Present(st.stores, n) && Lookup(st.stores, n).future.Pending?
    ensures Inv(RunTask(st, p, n).state, p)
    ensures Settled(st, p) ==> Settled(RunTask(st, p, n).state, p)
  {
    RunTaskSize(st, p, n);
    RunTaskEntries(st, p, n);
  }

  lemma RunTaskSize<K, V>(st: State<K, V>, p: Policy<K, V>, n: Node<K>)
    requires Inv(st, p) && Present(st.stores, n) && Lookup(st.stores, n).future.Pending?
    ensures ListSize(RunTask(st, p, n).state.stores, st.lru) == st.currentSize + p.size(p.compute(n.tag, n.key))
  {
    assert EntryOk(p, n.tag, n.key, st.stores[n.tag][n.key]);
    assert n in st.lru;
    ListSizeUpdate(st.stores, st.lru, n, RunTask(st, p, n).state.stores[n.tag][n.key]);
  }

  /** Replacing one listed entry changes the list's size by the change in its ready size. */
  lemma ListSizeUpdate<K, V>(stores: Stores<K, V>, s: seq<Node<K>>, n: Node<K>, e: Entry<V>)
    requires NoDup(s) && n in s && Present(stores, n)
    ensures var s2 := stores[n.tag := stores[n.tag][n.key := e]];
            ListSize(s2, s) + ReadySize(stores, n) == ListSize(stores, s) + ReadySize(s2, n)
  {
    var s2: Stores<K, V> := stores[n.tag := stores[n.tag][n.key := e]];
    RemoveMembers(s, n);
    var rest := Remove(s, n);
    ListSizeRemove(stores, s, n);
    ListSizeRemove(s2, s, n);
    forall j | 0 <= j < |rest| ensures ReadySize(stores, rest[j]) == ReadySize(s2, rest[j]) {
      assert rest[j] in rest;
    }
    ListSizeFrame(stores, s2, rest);
  }

  lemma RunTaskEntries<K, V>(st: State<K, V>, p: Policy<K, V>, n: Node<K>)
    requires Inv(st, p) && Present(st.stores, n) && Lookup(st.stores, n).future.Pending?
    ensures var s := RunTask(st, p, n).state.stores;
            && (forall j | 0 <= j < |st.lru| :: IsLinked(s, st.lru[j]))
            && (forall t: nat, k: K | 0 <= t < |s| && k in s[t] && s[t][k].linked :: Node(t, k) in st.lru)
            && (forall t: nat, k: K | 0 <= t < |s| && k in s[t] :: EntryOk(p, t, k, s[t][k]))
            && (Settled(st, p) ==> forall t: nat, k: K | 0 <= t < |s| && k in s[t] :: s[t][k].linked)
  {
    ReadyEntries(st.stores, st.lru, p, n);
  }

  /** Making one present entry ready with its computed value keeps every key
    * and every linked flag, and keeps the entries in agreement with the policy. */
  lemma ReadyEntries<K, V>(stores: Stores<K, V>, lru: seq<Node<K>>, p: Policy<K, V>, n: Node<K>)
    requires Present(stores, n)
    requires forall j | 0 <= j < |lru| :: IsLinked(stores, lru[j])
    requires forall t: nat, k: K | 0 <= t < |stores| && k in stores[t] && stores[t][k].linked :: Node(t, k) in lru
    requires forall t: nat, k: K | 0 <= t < |stores| && k in stores[t] :: EntryOk(p, t, k, stores[t][k])
    ensures var s := stores[n.tag := stores[n.tag][n.key := Lookup(stores, n).(future := Ready(MakeSized(p, p.compute(n.tag, n.key))))]];
            && (forall j | 0 <= j < |lru| :: IsLinked(s, lru[j]))
            && (forall t: nat, k: K | 0 <= t < |s| && k in s[t] && s[t][k].linked :: Node(t, k) in lru)
            && (forall t: nat, k: K | 0 <= t < |s| && k in s[t] :: EntryOk(p, t, k, s[t][k]))
            && ((forall t: nat, k: K | 0 <= t < |stores| && k in stores[t] :: stores[t][k].linked) ==>
                forall t: nat, k: K | 0 <= t < |s| && k in s[t] :: s[t][k].linked)
  {
    var s: Stores<K, V> := stores[n.tag := stores[n.tag][n.key := Lookup(stores, n).(future := Ready(MakeSized(p, p.compute(n.tag, n.key))))]];
    forall j | 0 <= j < |lru| ensures IsLinked(s, lru[j]) {
      assert IsLinked(stores, lru[j]);
    }
    forall t: nat, k: K | 0 <= t < |s| && k in s[t] && s[t][k].linked ensures Node(t, k) in lru {
      assert stores[t][k].linked;
    }
    forall t: nat, k: K | 0 <= t < |s| && k in s[t] ensures EntryOk(p, t, k, s[t][k]) {
      assert EntryOk(p, t, k, stores[t][k]);
    }
  }

  lemma GetFutureInv<K, V>(st: State<K, V>, p: Policy<K, V>, n: Node<K>)
    requires Inv(st, p) && n.tag < |st.stores|
    ensures Inv(GetFuture(st, p, n).state, p)
    ensures Settled(st, p) ==> Settled(GetFuture(st, p, n).state, p)
  {
    if Present(st.stores, n) {
      VisitInv(st, p, n);
    } else {
      AcquireInv(st, p, n);
      var a := Acquire(st, n);
      assert Present(a.state.stores, n) && Lookup(a.state.stores, n).future.Pending?;
      RunTaskInv(a.state, p, n);
    }
  }

  /** What Evict leaves: the invariant, and the free list consists of distinct
    * nodes whose entries are present and unlinked.  On a settled state these
    * are exactly the unlinked entries. */
  lemma EvictInv<K, V>(st: State<K, V>, p: Policy<K, V>)
    requires Inv(st, p)
    ensures var e := Evict(st, p);
            && Inv(e.0, p)
            && NoDup(e.1)
            && (forall j | 0 <= j < |e.1| :: Present(e.0.stores, e.1[j]) && !IsLinked(e.0.stores, e.1[j]))
            && (Settled(st, p) ==> forall t: nat, k: K | 0 <= t < |e.0.stores| && k in e.0.stores[t] && !e.0.stores[t][k].linked :: Node(t, k) in e.1)
  {
    if p.shouldEvict(st.currentSize) && st.lru != [] {
      var m := EvictIsSplit(st, p);
      SplitInv(st, p, st.lru[..m], st.lru[m..]);
    }
  }

  /** When lru_evict runs its loop, it splits the list after the prefix its
    * scan takes. */
  lemma EvictIsSplit<K, V>(st: State<K, V>, p: Policy<K, V>) returns (m: nat)
    requires p.shouldEvict(st.currentSize) && st.lru != []
    ensures m <= |st.lru| && st.lru == st.lru[..m] + st.lru[m..]
    ensures Evict(st, p) == (AfterSplit(st, st.lru[..m], st.lru[m..]), ReadyOf(st.stores, st.lru[..m]))
  {
    var s := st.lru;
    var r := Scan(st.stores, p.shouldEvict, s, st.currentSize, [], []);
    ScanRest(st.stores, p.shouldEvict, s, st.currentSize, [], []);
    ScanParts(st.stores, p.shouldEvict, s, st.currentSize, [], []);
    m := Taken(s, r);
    assert s == s[..m] + s[m..];
    assert r.evicted == ReadyOf(st.stores, s[..m]) && r.waiting == UnreadyOf(st.stores, s[..m]);
    assert r.rest == s[m..];
  }

  /** What is left of a prefix `pre` of the list after its ready nodes are
    * evicted and its unready ones re-appended after the remainder `rest`. */
  function AfterSplit<K, V>(st: State<K, V>, pre: seq<Node<K>>, rest: seq<Node<K>>): State<K, V>
  {
    st.(stores := Unlink(st.stores, ReadyOf(st.stores, pre)),
        lru := rest + UnreadyOf(st.stores, pre),
        currentSize := st.currentSize - ListSize(st.stores, pre))
  }

  lemma SplitInv<K, V>(st: State<K, V>, p: Policy<K, V>, pre: seq<Node<K>>, rest: seq<Node<K>>)
    requires Inv(st, p) && st.lru == pre + rest
    ensures ListSize(st.stores, pre) <= st.currentSize
    ensures var e := AfterSplit(st, pre, rest);
            var ev := ReadyOf(st.stores, pre);
            && Inv(e, p)
            && NoDup(ev)
            && (forall j | 0 <= j < |ev| :: Present(e.stores, ev[j]) && !IsLinked(e.stores, ev[j]))
            && (Settled(st, p) ==> forall t: nat, k: K | 0 <= t < |e.stores| && k in e.stores[t] && !e.stores[t][k].linked :: Node(t, k) in ev)
  {
    ListSizeAppend(st.stores, pre, rest);
    SplitFacts(st.stores, st.lru, pre, rest);
    ReadyMembers(st.stores, pre);
    ReadyNoDup(st.stores, pre);
    NoDupAppend(rest, UnreadyOf(st.stores, pre));
    SplitNodes(st, p, pre, rest);
    SplitEntries(st, p, pre, rest);
    SplitSize(st, p, pre, rest);
  }

  lemma SplitFacts<K, V>(stores: Stores<K, V>, s: seq<Node<K>>, pre: seq<Node<K>>, rest: seq<Node<K>>)
    requires NoDup(s) && (forall i | 0 <= i < |s| :: IsLinked(stores, s[i])) && s == pre + rest
    ensures NoDup(pre) && NoDup(rest)
    ensures forall y | y in pre :: y !in rest
    ensures forall y | y in rest :: y !in pre
    ensures forall y | y in pre :: IsLinked(stores, y)
    ensures forall y | y in rest :: IsLinked(stores, y)
  {
    var m := |pre|;
    forall i, j | 0 <= i < j < |pre| ensures pre[i] != pre[j] { assert pre[i] == s[i] && pre[j] == s[j]; }
    forall i, j | 0 <= i < j < |rest| ensures rest[i] != rest[j] { assert rest[i] == s[m + i] && rest[j] == s[m + j]; }
    forall y | y in pre ensures y !in rest && IsLinked(stores, y) {
      var i :| 0 <= i < |pre| && pre[i] == y;
      assert s[i] == y;
      forall j | 0 <= j < |rest| ensures rest[j] != y {
        assert rest[j] == s[m + j];
      }
    }
    forall y | y in rest ensures IsLinked(stores, y) {
      var j :| 0 <= j < |rest| && rest[j] == y;
      assert s[m + j] == y;
    }
  }

  lemma SplitNodes<K, V>(st: State<K, V>, p: Policy<K, V>, pre: seq<Node<K>>, rest: seq<Node<K>>)
    requires Inv(st, p) && st.lru == pre + rest
    ensures var stores' := Unlink(st.stores, ReadyOf(st.stores, pre));
            var lru' := rest + UnreadyOf(st.stores, pre);
            && (forall i | 0 <= i < |lru'| :: IsLinked(stores', lru'[i]))
            && (forall t: nat, k: K | 0 <= t < |stores'| && k in stores'[t] && stores'[t][k].linked :: Node(t, k) in lru')
  {
    var ev := ReadyOf(st.stores, pre);
    var stores': Stores<K, V> := Unlink(st.stores, ev);
    var lru' := rest + UnreadyOf(st.stores, pre);
    UnlinkEntries(st.stores, ev);
    SplitFacts(st.stores, st.lru, pre, rest);
    ReadyMembers(st.stores, pre);
    forall i | 0 <= i < |lru'| ensures IsLinked(stores', lru'[i]) {
      var y := lru'[i];
      if i < |rest| {
        assert y == rest[i] && y in rest;
        assert y !in pre;
      } else {
        assert y == UnreadyOf(st.stores, pre)[i - |rest|];
        assert y in UnreadyOf(st.stores, pre);
      }
    }
    forall t: nat, k: K | 0 <= t < |stores'| && k in stores'[t] && stores'[t][k].linked ensures Node(t, k) in lru' {
      var y := Node(t, k);
      assert st.stores[t][k].linked && y !in ev;
      assert y in st.lru;
      if y in pre {
        assert y in UnreadyOf(st.stores, pre);
      } else {
        assert y in rest;
      }
    }
  }

  lemma SplitEntries<K, V>(st: State<K, V>, p: Policy<K, V>, pre: seq<Node<K>>, rest: seq<Node<K>>)
    requires Inv(st, p) && st.lru == pre + rest
    ensures var ev := ReadyOf(st.stores, pre);
            var stores' := Unlink(st.stores, ev);
            && (forall t: nat, k: K | 0 <= t < |stores'| && k in stores'[t] :: EntryOk(p, t, k, stores'[t][k]))
            && (forall j | 0 <= j < |ev| :: Present(stores', ev[j]) && !IsLinked(stores', ev[j]))
            && (Settled(st, p) ==> forall t: nat, k: K | 0 <= t < |stores'| && k in stores'[t] && !stores'[t][k].linked :: Node(t, k) in ev)
  {
    var ev := ReadyOf(st.stores, pre);
    var stores': Stores<K, V> := Unlink(st.stores, ev);
    UnlinkEntries(st.stores, ev);
    ReadyMembers(st.stores, pre);
    forall t: nat, k: K | 0 <= t < |stores'| && k in stores'[t] ensures EntryOk(p, t, k, stores'[t][k]) {
      assert EntryOk(p, t, k, st.stores[t][k]);
    }
    forall j | 0 <= j < |ev| ensures Present(stores', ev[j]) && !IsLinked(stores', ev[j]) {
      assert ev[j] in ev;
    }
    if Settled(st, p) {
      forall t: nat, k: K | 0 <= t < |stores'| && k in stores'[t] && !stores'[t][k].linked ensures Node(t, k) in ev {
        assert st.stores[t][k].linked;
      }
    }
  }

  lemma SplitSize<K, V>(st: State<K, V>, p: Policy<K, V>, pre: seq<Node<K>>, rest: seq<Node<K>>)
    requires Inv(st, p) && st.lru == pre + rest
    ensures ListSize(Unlink(st.stores, ReadyOf(st.stores, pre)), rest + UnreadyOf(st.stores, pre))
            + ListSize(st.stores, pre) == st.currentSize
  {
    var stores' := Unlink(st.stores, ReadyOf(st.stores, pre));
    var lru' := rest + UnreadyOf(st.stores, pre);
    UnlinkEntries(st.stores, ReadyOf(st.stores, pre));
    forall i | 0 <= i < |lru'| ensures ReadySize(st.stores, lru'[i]) == ReadySize(stores', lru'[i]) {
    }
    ListSizeFrame(st.stores, stores', lru');
    ListSizeAppend(st.stores, rest, UnreadyOf(st.stores, pre));
    ListSizeAppend(st.stores, pre, rest);
    ReadySizes(st.stores, pre);
  }

  /** Erasing distinct present, unlinked entries keeps the invariant. */
  lemma EraseInv<K, V>(st: State<K, V>, p: Policy<K, V>, f: seq<Node<K>>)
    requires Inv(st, p)
    requires forall j | 0 <= j < |f| :: Present(st.stores, f[j]) && !IsLinked(st.stores, f[j])
    ensures Inv(st.(stores := EraseAll(st.stores, f)), p)
  {
    EraseAllEntries(st.stores, f);
    EraseKeepsList(st.stores, st.lru, f);
    EraseKeepsEntries(st, p, f);
  }

  lemma EraseKeepsList<K, V>(stores: Stores<K, V>, lru: seq<Node<K>>, f: seq<Node<K>>)
    requires forall i | 0 <= i < |lru| :: IsLinked(stores, lru[i])
    requires forall j | 0 <= j < |f| :: !IsLinked(stores, f[j])
    ensures forall i | 0 <= i < |lru| :: IsLinked(EraseAll(stores, f), lru[i])
    ensures ListSize(EraseAll(stores, f), lru) == ListSize(stores, lru)
  {
    var s: Stores<K, V> := EraseAll(stores, f);
    EraseAllEntries(stores, f);
    forall i | 0 <= i < |lru| ensures IsLinked(s, lru[i]) && ReadySize(stores, lru[i]) == ReadySize(s, lru[i]) {
      var y := lru[i];
      assert IsLinked(stores, y);
      assert forall j | 0 <= j < |f| :: f[j] != y;
      assert y !in f;
    }
    ListSizeFrame(stores, s, lru);
  }

  lemma EraseKeepsEntries<K, V>(st: State<K, V>, p: Policy<K, V>, f: seq<Node<K>>)
    requires Inv(st, p)
    ensures var s := EraseAll(st.stores, f);
            && (forall t: nat, k: K | 0 <= t < |s| && k in s[t] && s[t][k].linked :: Node(t, k) in st.lru)
            && (forall t: nat, k: K | 0 <= t < |s| && k in s[t] :: EntryOk(p, t, k, s[t][k]))
  {
    var s: Stores<K, V> := EraseAll(st.stores, f);
    EraseAllEntries(st.stores, f);
    forall t: nat, k: K | 0 <= t < |s| && k in s[t] && s[t][k].linked ensures Node(t, k) in st.lru {
      assert st.stores[t][k].linked;
    }
    forall t: nat, k: K | 0 <= t < |s| && k in s[t] ensures EntryOk(p, t, k, s[t][k]) {
      assert EntryOk(p, t, k, st.stores[t][k]);
    }
  }

  /** Pop keeps the invariant. */
  lemma PopInv<K, V>(st: State<K, V>, p: Policy<K, V>)
    requires Inv(st, p)
    ensures Inv(Pop(st, p), p)
  {
    EvictInv(st, p);
    var e := Evict(st, p);
    EraseInv(e.0, p, e.1);
  }

  /** Pop on a settled cache leaves it settled: every evicted key is gone from
    * its own map and every remaining entry has its node in the list. */
  lemma PopSettled<K, V>(st: State<K, V>, p: Policy<K, V>)
    requires Settled(st, p)
    ensures Settled(Pop(st, p), p)
  {
    var e := Evict(st, p);
    EvictInv(st, p);
    EraseInv(e.0, p, e.1);
    var s: Stores<K, V> := EraseAll(e.0.stores, e.1);
    EraseAllEntries(e.0.stores, e.1);
    forall t: nat, k: K | 0 <= t < |s| && k in s[t] ensures s[t][k].linked {
      assert k in e.0.stores[t] && Node(t, k) !in e.1;
    }
  }

  /** Get returns what the policy computes for the key, whatever Pop then evicts. */
  lemma GetValue<K, V>(st: State<K, V>, p: Policy<K, V>, n: Node<K>)
    requires Inv(st, p) && n.tag < |st.stores|
    ensures Get(st, p, n).1 == p.compute(n.tag, n.key)
  {
    if Present(st.stores, n) {
      assert EntryOk(p, n.tag, n.key, st.stores[n.tag][n.key]);
    }
  }

  lemma GetSettled<K, V>(st: State<K, V>, p: Policy<K, V>, n: Node<K>)
    requires Settled(st, p) && n.tag < |st.stores|
    ensures Settled(Get(st, p, n).0, p)
  {
    GetFutureInv(st, p, n);
    PopSettled(GetFuture(st, p, n).state, p);
  }

  /** A lookup that hits runs nothing: it only moves the node to the MRU end. */
  lemma GetHit<K, V>(st: State<K, V>, p: Policy<K, V>, n: Node<K>)
    requires Settled(st, p) && Present(st.stores, n)
    ensures var g := GetFuture(st, p, n);
            && g.state.computed == st.computed && g.state.stores == st.stores
            && g.state.currentSize == st.currentSize
            && g.state.lru == MoveToBack(st.lru, n)
  {
    SettledEntry(st, p, n);
  }

  /** A lookup that misses computes the key exactly once and appends one node for it. */
  lemma GetMiss<K, V>(st: State<K, V>, p: Policy<K, V>, n: Node<K>)
    requires Inv(st, p) && n.tag < |st.stores| && !Present(st.stores, n)
    ensures var g := GetFuture(st, p, n);
            && g.state.computed == st.computed + [n]
            && g.state.lru == st.lru + [n]
            && g.state.currentSize == st.currentSize + p.size(p.compute(n.tag, n.key))
            && g.future == Ready(MakeSized(p, p.compute(n.tag, n.key)))
  {
  }

  // ============================================================ the scenario

  lemma EmptySettled<K, V>(keyTypes: nat, p: Policy<K, V>)
    ensures Settled(Empty<K, V>(keyTypes), p)
  {
  }

  /** test_0's policy: an `int` key (tag 0) computes to k * 4 and a `long long`
    * key (tag 1) to k * 8, every value has size 1, and eviction starts above 2. */
  function Test0Policy(): Policy<int, int> {
    Policy((t: nat, k: int) => k * (if t == 0 then 4 else 8), (v: int) => 1, (size: int) => size > 2)
  }

  const Test0Keys: seq<Node<int>> := [Node(0, 1), Node(1, 2), Node(1, 1), Node(1, 2), Node(0, 1), Node(0, 2)]

  /** A miss on a key whose value has size 1 adds one ready entry and one node. */
  lemma MissUnit<K, V>(st: State<K, V>, p: Policy<K, V>, n: Node<K>)
    requires n.tag < |st.stores| && !Present(st.stores, n) && p.size(p.compute(n.tag, n.key)) == 1
    ensures GetFuture(st, p, n).state
            == State(st.stores[n.tag := st.stores[n.tag][n.key := Entry(Ready(MakeSized(p, p.compute(n.tag, n.key))), true)]],
                     st.lru + [n], st.currentSize + 1, st.computed + [n])
  {
    var e := Entry(Ready(MakeSized(p, p.compute(n.tag, n.key))), true);
    var a := Acquire(st, n);
    assert a.state.stores[n.tag][n.key] == Entry(Pending, true);
    var r := RunTask(a.state, p, n);
    assert r.state.stores == a.state.stores[n.tag := a.state.stores[n.tag][n.key := e]];
    assert a.state.stores[n.tag][n.key := e] == st.stores[n.tag][n.key := e];
  }

  /** A Pop that evicts only the LRU node, which is ready. */
  lemma PopFront<K, V>(st: State<K, V>, p: Policy<K, V>)
    requires ListSize(st.stores, st.lru) <= st.currentSize && |st.lru| > 1 && IsReady(st.stores, st.lru[0])
    requires p.shouldEvict(st.currentSize) && !p.shouldEvict(st.currentSize - ReadySize(st.stores, st.lru[0]))
    ensures Pop(st, p) == st.(stores := EraseKey(st.stores, st.lru[0]), lru := st.lru[1..],
                              currentSize := st.currentSize - ReadySize(st.stores, st.lru[0]))
  {
    var n := st.lru[0];
    var r := Scan(st.stores, p.shouldEvict, st.lru, st.currentSize, [], []);
    assert r.evicted == [n] && r.waiting == [] && r.rest == st.lru[1..];
    assert [n][..0] == [];
    assert Unlink(st.stores, [n]) == Mark(st.stores, n);
    assert EraseAll(Mark(st.stores, n), [n]) == EraseKey(Mark(st.stores, n), n);
    assert st.stores[n.tag][n.key := Lookup(st.stores, n).(linked := false)] - {n.key} == st.stores[n.tag] - {n.key};
  }

  function E(v: int): Entry<int> { Entry(Ready(Sized(v, 1)), true) }

  // The states test_0 goes through, one per Get.
  const S0: State<int, int> := State([map[], map[]], [], 0, [])
  const S1: State<int, int> := State([map[1 := E(4)], map[]], [Node(0, 1)], 1, [Node(0, 1)])
  const S2: State<int, int> := State([map[1 := E(4)], map[2 := E(16)]], [Node(0, 1), Node(1, 2)], 2, [Node(0, 1), Node(1, 2)])
  const S3: State<int, int> := State([map[], map[2 := E(16), 1 := E(8)]], [Node(1, 2), Node(1, 1)], 2,
                                     [Node(0, 1), Node(1, 2), Node(1, 1)])
  const S4: State<int, int> := S3.(lru := [Node(1, 1), Node(1, 2)])
  const S5: State<int, int> := State([map[1 := E(4)], map[2 := E(16)]], [Node(1, 2), Node(0, 1)], 2,
                                     [Node(0, 1), Node(1, 2), Node(1, 1), Node(0, 1)])
  const S6: State<int, int> := State([map[1 := E(4), 2 := E(8)], map[]], [Node(0, 1), Node(0, 2)], 2,
                                     [Node(0, 1), Node(1, 2), Node(1, 1), Node(0, 1), Node(0, 2)])

  const T3: State<int, int> := State([map[1 := E(4)], map[2 := E(16), 1 := E(8)]], [Node(0, 1), Node(1, 2), Node(1, 1)], 3,
                                     [Node(0, 1), Node(1, 2), Node(1, 1)])
  const T5: State<int, int> := State([map[1 := E(4)], map[2 := E(16), 1 := E(8)]], [Node(1, 1), Node(1, 2), Node(0, 1)], 3,
                                     [Node(0, 1), Node(1, 2), Node(1, 1), Node(0, 1)])
  const T6: State<int, int> := State([map[1 := E(4), 2 := E(8)], map[2 := E(16)]], [Node(1, 2), Node(0, 1), Node(0, 2)], 3,
                                     [Node(0, 1), Node(1, 2), Node(1, 1), Node(0, 1), Node(0, 2)])

  lemma PopT3() ensures ListSize(T3.stores, T3.lru) == 3 && Pop(T3, Test0Policy()) == S3
  {
    assert ListSize(T3.stores, T3.lru[2..]) == 1;
    assert ListSize(T3.stores, T3.lru[1..]) == 2;
    PopFront(T3, Test0Policy());
    assert T3.stores[0] - {1} == map[];
  }

  lemma PopT5() ensures ListSize(T5.stores, T5.lru) == 3 && Pop(T5, Test0Policy()) == S5
  {
    assert ListSize(T5.stores, T5.lru[2..]) == 1;
    assert ListSize(T5.stores, T5.lru[1..]) == 2;
    PopFront(T5, Test0Policy());
    assert T5.stores[1] - {1} == map[2 := E(16)];
  }

  lemma PopT6() ensures ListSize(T6.stores, T6.lru) == 3 && Pop(T6, Test0Policy()) == S6
  {
    assert ListSize(T6.stores, T6.lru[2..]) == 1;
    assert ListSize(T6.stores, T6.lru[1..]) == 2;
    PopFront(T6, Test0Policy());
    assert T6.stores[1] - {2} == map[];
  }

  lemma PolicyValues()
    ensures var p := Test0Policy();
            && p.compute(0, 1) == 4 && p.compute(1, 2) == 16 && p.compute(1, 1) == 8 && p.compute(0, 2) == 8
            && MakeSized(p, 4) == Sized(4, 1) && MakeSized(p, 8) == Sized(8, 1) && MakeSized(p, 16) == Sized(16, 1)
  {
  }

  lemma Test0Get1()
    requires Settled(S0, Test0Policy())
    ensures Settled(S1, Test0Policy()) && Get(S0, Test0Policy(), Node(0, 1)) == (S1, 4)
  {
    var p := Test0Policy();
    PolicyValues();
    MissUnit(S0, p, Node(0, 1));
    assert GetFuture(S0, p, Node(0, 1)).state == S1;
    GetSettled(S0, p, Node(0, 1));
  }

  lemma Test0Get2()
    requires Settled(S1, Test0Policy())
    ensures Settled(S2, Test0Policy()) && Get(S1, Test0Policy(), Node(1, 2)) == (S2, 16)
  {
    var p := Test0Policy();
    PolicyValues();
    MissUnit(S1, p, Node(1, 2));
    assert GetFuture(S1, p, Node(1, 2)).state == S2;
    GetSettled(S1, p, Node(1, 2));
  }

  /** The third insert brings the size to 3 and evicts (int,1), the LRU node. */
  lemma Test0Get3()
    requires Settled(S2, Test0Policy())
    ensures Settled(S3, Test0Policy()) && Get(S2, Test0Policy(), Node(1, 1)) == (S3, 8)
  {
    var p := Test0Policy();
    PolicyValues();
    MissUnit(S2, p, Node(1, 1));
    assert GetFuture(S2, p, Node(1, 1)).state == T3;
    PopT3();
    GetSettled(S2, p, Node(1, 1));
  }

  /** A hit on (ll,2) only moves it to the MRU end. */
  lemma Test0Get4()
    requires Settled(S3, Test0Policy())
    ensures Settled(S4, Test0Policy()) && Get(S3, Test0Policy(), Node(1, 2)) == (S4, 16)
  {
    var p := Test0Policy();
    PolicyValues();
    GetHit(S3, p, Node(1, 2));
    assert GetFuture(S3, p, Node(1, 2)).state == S4;
    GetSettled(S3, p, Node(1, 2));
  }

  lemma Test0Get5()
    requires Settled(S4, Test0Policy())
    ensures Settled(S5, Test0Policy()) && Get(S4, Test0Policy(), Node(0, 1)) == (S5, 4)
  {
    var p := Test0Policy();
    PolicyValues();
    MissUnit(S4, p, Node(0, 1));
    assert GetFuture(S4, p, Node(0, 1)).state == T5;
    PopT5();
    GetSettled(S4, p, Node(0, 1));
  }

  lemma Test0Get6()
    requires Settled(S5, Test0Policy())
    ensures Settled(S6, Test0Policy()) && Get(S5, Test0Policy(), Node(0, 2)) == (S6, 8)
  {
    var p := Test0Policy();
    PolicyValues();
    MissUnit(S5, p, Node(0, 2));
    assert GetFuture(S5, p, Node(0, 2)).state == T6;
    PopT6();
    GetSettled(S5, p, Node(0, 2));
  }

  /** test_0: "Computing" is printed for (int,1), (ll,2), (ll,1), then (int,1)
    * again, because the third insert evicted it, then (int,2); the values
    * printed are 4, 16, 8, 16, 4 and 8. */
  lemma Test0()
    ensures Empty<int, int>(2) == S0 && Settled(S0, Test0Policy())
    ensures var p := Test0Policy();
            && Get(S0, p, Node(0, 1)) == (S1, 4)
            && Get(S1, p, Node(1, 2)) == (S2, 16)
            && Get(S2, p, Node(1, 1)) == (S3, 8)
            && Get(S3, p, Node(1, 2)) == (S4, 16)
            && Get(S4, p, Node(0, 1)) == (S5, 4)
            && Get(S5, p, Node(0, 2)) == (S6, 8)
    ensures S6.computed == [Node(0, 1), Node(1, 2), Node(1, 1), Node(0, 1), Node(0, 2)]
    ensures Settled(S3, Test0Policy()) && !Present(S3.stores, Node(0, 1))
    ensures Settled(S6, Test0Policy()) && S6.lru == [Node(0, 1), Node(0, 2)]
  {
    EmptySettled<int, int>(2, Test0Policy());
    assert Empty<int, int>(2) == S0;
    Test0Get1(); Test0Get2(); Test0Get3(); Test0Get4(); Test0Get5(); Test0Get6();
  }

}
