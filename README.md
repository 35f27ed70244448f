# A verified model of DarkSharpness/cpp

This project models the core of DarkSharpness/cpp, a C++ repository of small
libraries and experiments, and proves properties of the model. The modules
follow the source files:

- `CacheSpec` and `Cache` (misc/shared_map_2.cpp) cover `ThreadSafeCacheSized2`.
  This is a cache keyed by several key types. It has one map per key type, an
  LRU list and a running size. Entries are computed once by a packaged task
  and evicted from the LRU end while the policy asks for it. `CacheSpec` is
  the state machine, as functions on a `State` value. `Cache.SizedCache` is a
  class whose fields are updated in place, and each of its methods is proved
  to take one step of that machine.
- `IntSet` (csrc/include/set/int_set.h) is the 16-way compressed trie of
  64-bit keys. Its nodes live in an arena, a sequence indexed like pointers,
  inside the class `IntSet.IntTrie`.
- `StrSet` (csrc/include/set/str_set.h) is the 256-way compressed radix tree
  of strings. It is a `Tree` value inside the class `StrSet.RadixTree`.
- `Sets` (toys/sets/sets.h) is the set algebra that derives `&`, `|`, `^`,
  `-` and the comparison from whichever operators a set type provides.
- `Bools` (toys/sets/bools.h) covers truth tables over n variables and the
  search for a table that can be built from a set of given tables.
- `Ring` (toys/ring/ring.h) has the primality test, `mul_mod`, `safe_pow`,
  and the integers modulo n as a group and as a ring. The number theory it
  needs (Fermat's little theorem among it) is in `Primes`.
- `Serialize` (toys/serialize/sl.h) is the binary serialiser. It covers the
  header, the layout of static and dynamic fields, `serialize` and
  `deserialize`.
- `TupleProduct` (template/tuple_product.cpp) is the Cartesian product of
  tuples. It covers the shape of the product, the mixed-radix digits of
  `make_ctor_array`, and the element-by-element construction.
- `Format`, `Fmt` and `Formatter` cover the subset of std::format the
  formatters use, plus the formatters of toys/formatter/fmt.h and
  template/formatter.h.
- `Optional` (toys/optional/opt.h) is the optional reference
  `optional<T&>` and the free combinator operators.
- `IRange` (csrc/include/utils/irange.h) is the integer range and its
  iterator.
- `Wrappers` holds `Option` and `Result`. `Bits` holds powers of two, shifts
  and bitwise operators on naturals.

## Model

| member | source | states |
|---|---|---|
| CacheSpec.Probe | misc/shared_map_2.cpp:33-38 | the shared phase of try_insert: a key already present is answered by `exist`, which is a visit; an absent key leaves the state unchanged |
| CacheSpec.Acquire | misc/shared_map_2.cpp:39-46 | the exclusive phase: a key that appeared meanwhile is visited and nothing is inserted; otherwise the map gains a pending, linked entry and exactly one node for that key is appended at the end of the list; the size and the compute log do not change (also lru_init at lines 110-120) |
| CacheSpec.RunTask | misc/shared_map_2.cpp:213-233 | `exit` runs the task once: the value is computed for this key and logged, the future becomes ready with that value and its size, and `Policy::size(value)` is added to current_size_; the list does not change |
| CacheSpec.Visit | misc/shared_map_2.cpp:95-108 | lru_visit answers the entry's future and leaves the maps and the size alone; a node marked for eviction does not move |
| CacheSpec.VisitMovesToBack | misc/shared_map_2.cpp:100-107 | visiting the node at position i turns the list into `lru[..i] + lru[i+1..] + [n]`: the node moves to the MRU end and all others keep their order |
| CacheSpec.GetHit | misc/shared_map_2.cpp:33-38 | GetFuture on a key already present computes nothing, changes no map and no size, and only moves the key's node to the MRU end (also Get at line 200) |
| CacheSpec.GetMiss | misc/shared_map_2.cpp:213-233 | GetFuture on a fresh key computes exactly that key once, appends exactly one node for it at the list end, adds its size to current_size_, and answers a ready future holding the computed value (also the probe at lines 46-48 and lru_init at lines 110-120) |
| CacheSpec.ScanFront | misc/shared_map_2.cpp:135-144 | one round of the eviction do-while followed by the rest of the loop is the whole loop; the loop continues only while the predicate holds and nodes remain |
| CacheSpec.ScanEvicted | misc/shared_map_2.cpp:135-144 | the free list is the ready nodes among those the loop examined, in list order |
| CacheSpec.ScanWaiting | misc/shared_map_2.cpp:138-146 | the waiting list is the examined nodes whose future is not ready, in list order |
| CacheSpec.ScanSize | misc/shared_map_2.cpp:241-249 | after the loop, current_size_ has dropped by exactly the sizes of the evicted entries |
| CacheSpec.ScanStops | misc/shared_map_2.cpp:144 | the loop ends only when the predicate fails or the list is exhausted |
| CacheSpec.ScanRechecks | misc/shared_map_2.cpp:144 | every round before the last one saw the predicate still hold |
| CacheSpec.EvictIsSplit | misc/shared_map_2.cpp:122-148 | eviction splits the list into the examined prefix and the rest: ready nodes of the prefix are marked and returned as the free list, and the list becomes the rest followed by the waiting nodes |
| CacheSpec.EvictInv | misc/shared_map_2.cpp:122-161 | eviction keeps the cache invariant; the free list has no duplicates, and each of its keys is still mapped but no longer linked |
| CacheSpec.SplitInv | misc/shared_map_2.cpp:139-146 | in every such split the evicted sizes are at most current_size_ and the invariant holds afterwards |
| CacheSpec.EraseInv | misc/shared_map_2.cpp:150-160 | erasing the free list's keys from their own maps keeps the invariant |
| CacheSpec.PopInv | misc/shared_map_2.cpp:238-251 | Pop keeps the invariant: the list holds each linked key once, every mapped entry holds its key's computed value once ready, and current_size_ is the total size of the ready entries in the list |
| CacheSpec.PopSettled | misc/shared_map_2.cpp:238-251 | once all entries are ready and linked, Pop leaves them so |
| CacheSpec.PopFront | misc/shared_map_2.cpp:124-148 | when exactly one eviction of a ready front node satisfies the predicate, Pop erases that key, drops it from the list and subtracts its size |
| CacheSpec.VisitInv | misc/shared_map_2.cpp:95-108 | lru_visit keeps the invariant |
| CacheSpec.AcquireInv | misc/shared_map_2.cpp:39-46 | the exclusive phase keeps the invariant (also lru_init at lines 110-120) |
| CacheSpec.RunTaskInv | misc/shared_map_2.cpp:213-233 | running the task keeps the invariant |
| CacheSpec.GetFutureInv | misc/shared_map_2.cpp:206-236 | GetFuture keeps the invariant |
| CacheSpec.GetValue | misc/shared_map_2.cpp:194-203 | Get returns the value computed for the key, even when the Pop after GetFuture evicted the entry |
| CacheSpec.GetSettled | misc/shared_map_2.cpp:194-203 | Get on a settled cache leaves it settled |
| CacheSpec.EmptySettled | misc/shared_map_2.cpp:164-166 | a new cache has one empty map per key type, an empty list and size 0, and it is settled (also the cache of line 254) |
| CacheSpec.Test0 | misc/shared_map_2.cpp:271-279 | test_0 returns 4, 16, 8, 16, 4, 8; it computes (int 1), (long long 2), (long long 1), (int 1) again after its eviction, and (int 2); at the end the list is (int 1), (int 2) |
| Cache.SizedCache.constructor | misc/shared_map_2.cpp:164-166 | a new cache is the empty state and settled (also the cache of line 254) |
| Cache.SizedCache.Visit | misc/shared_map_2.cpp:95-108 | the list splice in place is CacheSpec.Visit's step, and the invariant is kept |
| Cache.SizedCache.Probe | misc/shared_map_2.cpp:33-38 | the shared probe is CacheSpec.Probe's step and answers the present entry's future |
| Cache.SizedCache.Acquire | misc/shared_map_2.cpp:39-46 | try_emplace with lru_init is CacheSpec.Acquire's step (also lru_init at lines 110-120) |
| Cache.SizedCache.RunTask | misc/shared_map_2.cpp:213-233 | the task run is CacheSpec.RunTask's step |
| Cache.SizedCache.GetFuture | misc/shared_map_2.cpp:206-236 | try_insert with the four callbacks is CacheSpec.GetFuture's step |
| Cache.SizedCache.Erase | misc/shared_map_2.cpp:52-55 | LockedMap::erase removes the key from its own map only; the list, the size and the log do not change |
| Cache.SizedCache.Detach | misc/shared_map_2.cpp:122-148 | the short circuit, the do-while and the splice of the waiting list are CacheSpec.Evict |
| Cache.SizedCache.EraseFree | misc/shared_map_2.cpp:150-160 | the loop over the free list erases exactly its keys, each from the map of its own key type |
| Cache.SizedCache.Pop | misc/shared_map_2.cpp:238-251 | Pop is CacheSpec.Pop's step and keeps the invariant |
| Cache.SizedCache.Get | misc/shared_map_2.cpp:194-203 | Get is CacheSpec.Get's step and returns the key's computed value |
| Cache.TakeFront | misc/shared_map_2.cpp:136-143 | one round: a ready front entry has its iterator reset, joins the free list and gives back its size; an unready one is set aside |
| Cache.DetachLoop | misc/shared_map_2.cpp:130-144 | the loop computes CacheSpec.Scan and resets the iterators of exactly the evicted nodes |
| Cache.Test0 | misc/shared_map_2.cpp:271-279 | test_0 run on the class prints 4, 16, 8, 16, 4, 8 and computes the five keys in the order above |
| IntSet.Covers | csrc/include/set/int_set.h:20-25 | a node covers v exactly when `v >> bit == prefix`, which is exactly when v lies in the 2^bit keys from `start() == prefix << bit` on |
| IntSet.Offset | csrc/include/set/int_set.h:51-55 | a key's place in its leaf's bitset, `v & kMask`, is its low 12 bits |
| IntSet.Slot | csrc/include/set/int_set.h:85-96 | normal_node::operator[] picks slot `(v >> (bit - 4)) & 15`, below 16 |
| IntSet.TrySet | csrc/include/set/int_set.h:54-62 | try_set adds the key's offset to the bitset, keeps the count equal to the number of set bits, and reports true exactly when the bit was clear |
| IntSet.TryUnset | csrc/include/set/int_set.h:64-72 | try_unset removes the offset, keeps the count, and reports true exactly when the bit was set |
| IntSet.SetUnset | csrc/include/set/int_set.h:54-72 | a successful try_set is undone by try_unset, and a successful try_unset by try_set |
| IntSet.MakeLeaf | csrc/include/set/int_set.h:157-161 | s_make_leaf makes a leaf with prefix `v >> 12` that covers v and holds exactly v |
| IntSet.MakeNormal | csrc/include/set/int_set.h:163-165 | s_make_normal makes a node at level b, with 12 < b <= 64 and b a multiple of 4, that covers v, meets the header bound of base_node and has 16 empty slots (also the node constructors at lines 27-31 and 86-88) |
| IntSet.DerefKey | csrc/include/set/int_set.h:118-127 | an iterator at v's offset in a leaf that covers v dereferences, through `m_offset \| start()`, to v |
| IntSet.RootContains | csrc/include/set/int_set.h:242 | the root, with prefix 0 at bit 64, covers every 64-bit key |
| IntSet.SplitPlan | csrc/include/set/int_set.h:167-181 | s_split_at: when the child in v's slot does not cover v, the middle node at level `ceil(bit_width(v ^ start) / 4) * 4` fits that slot and covers both the old child and v, in two different slots |
| IntSet.SplitEffect | csrc/include/set/int_set.h:167-182 | after s_split_at the trie is well formed and its keys are the old keys plus v |
| IntSet.AddLeafEffect | csrc/include/set/int_set.h:186-190 | filling an empty slot with s_make_leaf keeps the trie well formed and adds exactly v |
| IntSet.LeafEffect | csrc/include/set/int_set.h:195-215 | changing only v's bit in the leaf v reaches changes the membership of v alone |
| IntSet.IntTrie.constructor | csrc/include/set/int_set.h:242 | a new set holds no key, and every descent ends at an empty root slot (also set() at line 113) |
| IntSet.IntTrie.Seek | csrc/include/set/int_set.h:185-238 | the do-while shared by insert, erase and find: from the root it ends at an empty slot, at a child that does not cover v, or at the leaf that covers v |
| IntSet.IntTrie.Find | csrc/include/set/int_set.h:222-239 | find gives an iterator exactly when v is in the set, and that iterator dereferences to v (also find at lines 151-153) |
| IntSet.IntTrie.Erase | csrc/include/set/int_set.h:205-220 | erase reports whether v was in the set; afterwards v is not in it and every other key keeps its membership (also erase at lines 147-149) |
| IntSet.IntTrie.SplitAt | csrc/include/set/int_set.h:167-182 | the arena becomes WithSplit: two nodes are appended and one slot is rewired; v joins the set, and the returned iterator dereferences to v |
| IntSet.IntTrie.AddLeaf | csrc/include/set/int_set.h:186-190 | the null-slot case: a fresh leaf holding v fills the slot, and v joins the set |
| IntSet.IntTrie.SetBit | csrc/include/set/int_set.h:195-197 | try_set on the leaf itself reports whether v was absent, and v is in the set afterwards |
| IntSet.IntTrie.Insert | csrc/include/set/int_set.h:184-203 | insert with the leaf updated in place: it reports whether v was absent, v is in the set afterwards, no other key changes, and the iterator dereferences to v (also insert at lines 143-145) |
| IntSet.IntTrie.InsertAsWritten | csrc/include/set/int_set.h:184-203 | insert as written: when v reaches an existing leaf, try_set runs on a copy, so v joins the set only when a new leaf or a split was needed; it still reports whether v was absent; on that path the iterator returned points into the destroyed local copy, so it refers to no node of the trie, and on the other paths it dereferences to v |
| IntSet.Correctness | csrc/cpp/set/main.cpp:41-51 | correctness(): after inserting 1, 2, 4, 8 and 4096, find(1) has a value; after erase(1) it has none |
| IntSet.CorrectnessAsWritten | csrc/cpp/set/main.cpp:41-51 | the same run with insert as written: insert(2) reports a new key, yet find(2) then misses it and the iterator insert(2) returned refers to no node of the trie; the two printed lines are unchanged |
| StrSet.Common | csrc/include/set/str_set.h:20-28 | base_node::match is the longest common prefix: the strings agree up to it and differ just after it, unless one of them ends there |
| StrSet.CommonUnique | csrc/include/set/str_set.h:20-28 | any length with those two properties is the match |
| StrSet.CommonFull | csrc/include/set/str_set.h:20-28 | a node's prefix is matched in full exactly when it is a prefix of the key (also the test at line 177) |
| StrSet.Match | csrc/include/set/str_set.h:20-28 | the loop of match computes the longest common prefix |
| StrSet.Split | csrc/include/set/str_set.h:34-38 | split(n) returns the first n characters, and the node keeps the rest and nothing else changes |
| StrSet.InsertLocate | csrc/include/set/str_set.h:145-186 | after s_try_insert of w, a lookup of u finds w when w was inserted and either u is w or w ended in a new leaf that u extends; every other lookup answers as before |
| StrSet.InsertReports | csrc/include/set/str_set.h:166-186 | s_try_insert reports an insertion exactly when the lookup of w used to find nothing |
| StrSet.InsertWf | csrc/include/set/str_set.h:145-186 | insertion keeps every child in the slot of its prefix's first character, with a nonempty prefix |
| StrSet.InsertKeepsKeys | csrc/include/set/str_set.h:145-186 | a key whose lookup finds itself is still found after any insertion |
| StrSet.InsertBelowKey | csrc/include/set/str_set.h:156-169 | inserting a strict prefix of a stored key ends at a normal node that gets has_value, not at a leaf |
| StrSet.SplitVia | csrc/include/set/str_set.h:145-164 | the middle node a split leaves in the slot finds w, and the keys that extend w when w got a leaf; other keys are answered by the old child |
| StrSet.MiddleLocate | csrc/include/set/str_set.h:148-163 | the middle node has has_value exactly when nothing of w remains; it holds the new leaf under w's next character and the shortened old child under its own |
| StrSet.RemoveReports | csrc/include/set/str_set.h:188-208 | s_try_remove reports a removal exactly when the lookup of w finds a node |
| StrSet.RemoveLocate | csrc/include/set/str_set.h:188-208 | after s_try_remove of w, every key whose lookup stopped where w's did now finds nothing, and every other key answers as before |
| StrSet.RemoveWf | csrc/include/set/str_set.h:188-208 | removal keeps the tree well formed; it never merges nodes |
| StrSet.LeafExtends | csrc/include/set/str_set.h:222-223 | a lookup that stops at a leaf whose key is shorter than the one looked up finds that leaf for every extension of its key |
| StrSet.SplitAt | csrc/include/set/str_set.h:145-164 | s_split_at's steps give the middle node: the common part, the old child shortened and hung under its first remaining character, and either has_value or a new leaf with the rest of w |
| StrSet.RadixTree.constructor | csrc/include/set/str_set.h:230 | a new tree has an empty root and no lookup finds anything (also set() at line 100) |
| StrSet.RadixTree.Find | csrc/include/set/str_set.h:210-228 | find has a value exactly when the lookup of the key finds a node: the root's has_value for the empty key, otherwise s_try_locate (also find at lines 130-134) |
| StrSet.RadixTree.Insert | csrc/include/set/str_set.h:166-186 | insert in place computes s_try_insert: it reports whether the key used to be missing, the key is found afterwards, and other lookups change as InsertLocate says (also insert at lines 122-124) |
| StrSet.RadixTree.Erase | csrc/include/set/str_set.h:188-208 | erase in place computes s_try_remove: it reports whether the key was found, the key is not found afterwards, and other lookups change as RemoveLocate says (also erase at lines 126-128) |
| StrSet.LeafQuirk | csrc/include/set/str_set.h:180-223 | with "-ab" stored, find("-abc") has a value, insert("-abc") reports no insertion, and erase("-abc") removes "-ab" |
| StrSet.InsertExactHolds | csrc/include/set/str_set.h:166-186 | with an exact leaf test, insertion is set insertion: u is held afterwards exactly when it was held before or is w |
| StrSet.InsertExactReports | csrc/include/set/str_set.h:166-186 | with an exact leaf test, insert reports whether the key was new |
| StrSet.RemoveExactHolds | csrc/include/set/str_set.h:188-208 | with an exact leaf test, removal is set removal |
| StrSet.RemoveExactReports | csrc/include/set/str_set.h:188-208 | with an exact leaf test, erase reports whether the key was held |
| StrSet.Scenario | csrc/cpp/set/main.cpp:53-72 | correctness_string, for any four keys shaped like "-hello", "-world", "-dark" and "-w", prints true, true, false, then true, true, true, then false, true, true, then false, true |
| StrSet.CorrectnessString | csrc/cpp/set/main.cpp:53-72 | the same eleven answers for the keys of the source |
| Sets.AndBySub | toys/sets/sets.h:69-70 | a / (a / b) is the intersection |
| Sets.AndByOrXor | toys/sets/sets.h:71-72 | (a \| b) ^ (a ^ b) is the intersection |
| Sets.AndByOrNot | toys/sets/sets.h:73-74 | ~(~a \| ~b) is the intersection inside the universe |
| Sets.OpAnd | toys/sets/sets.h:64-78 | under its requires clause, every branch op_and can select yields the intersection |
| Sets.OrBySubXor | toys/sets/sets.h:85-86 | (a / b) ^ b is the union |
| Sets.OrByAndXor | toys/sets/sets.h:87-88 | (a & b) ^ (a ^ b) is the union |
| Sets.OrBySubNot | toys/sets/sets.h:89-90 | ~(~a / b) is the union inside the universe |
| Sets.OrByAndNot | toys/sets/sets.h:91-92 | ~(~a & ~b) is the union inside the universe |
| Sets.OpOr | toys/sets/sets.h:80-96 | every branch op_or can select yields the union |
| Sets.XorBySubOr | toys/sets/sets.h:103-104 | (a / b) \| (b / a) is the symmetric difference |
| Sets.XorByNotSub | toys/sets/sets.h:105-107 | ~(~b / a) / (a / ~b) is the symmetric difference |
| Sets.XorByNotOr | toys/sets/sets.h:108-109 | ~(a \| ~b) \| ~(~a \| b) is the symmetric difference |
| Sets.XorByNotAnd | toys/sets/sets.h:110-111 | ~(a & b) & ~(~a & ~b) is the symmetric difference |
| Sets.OpXor | toys/sets/sets.h:98-115 | every branch op_xor can select yields the symmetric difference |
| Sets.SubByAndXor | toys/sets/sets.h:122-123 | (a & b) ^ a is the difference |
| Sets.SubByOrXor | toys/sets/sets.h:124-125 | (a \| b) ^ b is the difference |
| Sets.SubByAndNot | toys/sets/sets.h:126-127 | a & ~b is the difference |
| Sets.SubByOrNot | toys/sets/sets.h:128-129 | ~(~a \| b) is the difference |
| Sets.OpSub | toys/sets/sets.h:117-133 | every branch op_sub can select yields the difference |
| Sets.OpCmp | toys/sets/sets.h:135-167 | the partial ordering is equivalent iff the sets are equal, less iff a is a proper subset, greater iff b is, unordered iff neither includes the other, whichever inclusion test is used |
| Sets.EmptyDiff | toys/sets/sets.h:154-156 | a / b is empty exactly when a is a subset of b, which justifies the third inclusion test |
| Sets.EmptyMeet | toys/sets/sets.h:267 | a & b is empty exactly when the sets are disjoint |
| Sets.EmptySet | toys/sets/sets.h:254-257 | the default-constructed set holds nothing |
| Sets.FullSet | toys/sets/sets.h:259-262 | the complement of the empty set is the whole universe |
| Sets.ComplTwice | toys/sets/sets.h:259-262 | complementing twice inside the universe gives the set back |
| Sets.Plus | toys/sets/sets.h:264-270 | a + b succeeds exactly when the sets are disjoint and then is their union; otherwise it throws "Sets must be disjoint" |
| Sets.Minus | toys/sets/sets.h:272-278 | a - b succeeds exactly when b is a subset of a and then is their difference |
| Sets.PlusMinus | toys/sets/sets.h:264-278 | for disjoint a and b, (a + b) - b succeeds and gives a |
| Sets.MinusPlus | toys/sets/sets.h:264-278 | for b a subset of a, (a - b) + b succeeds and gives a |
| Bools.ValueBits | toys/sets/bools.h:32 | std::bitset<n>{x} followed by to_ulong gives back any x below 2^n |
| Bools.BitsValue | toys/sets/bools.h:44-46 | the bits of a bitset's to_ulong value are the bitset itself |
| Bools.TableApply | toys/sets/bools.h:28-34 | a table made from fn answers every n-bit input as fn does |
| Bools.MakeTable | toys/sets/bools.h:28-34 | the loop fills entry i with fn of the bits of i, for all 2^n entries |
| Bools.ComposedApply | toys/sets/bools.h:48-57 | the gathered table answers each input as the table does on the inputs' answers from each source |
| Bools.Gather | toys/sets/bools.h:48-57 | gather builds that composed table, and it answers every input as the composition does |
| Bools.ConstantTables | toys/sets/bools.h:71-89 | the entries of or/and/xor/sub, both two-input identities and the one-input not |
| Bools.MapNotApply | toys/sets/bools.h:83-89 | map_table<n, m> answers input bit m and not_table<n, m> its negation |
| Bools.StepGather | toys/sets/bools.h:48-57 | gathering two two-input tables is the entrywise table g(x[i], y[i]) |
| Bools.GatherPair | toys/sets/bools.h:132 | table.gather(x, y) on two-input tables yields that entrywise table |
| Bools.StepIdentity | toys/sets/bools.h:118-119 | gathering the two identity tables through g gives g back |
| Bools.WriteTable | toys/sets/bools.h:112-113 | writing bits n << 2 \| i puts the table at bits 4n to 4n + 3 and leaves the rest of the history unchanged |
| Bools.AddNew | toys/sets/bools.h:106-115 | a table already marked changes nothing; a new one gets marked, counted and flags the round as changed |
| Bools.AddNewMarks | toys/sets/bools.h:106-115 | adding a table keeps every mark and sets only the table's own |
| Bools.AddNewTable | toys/sets/bools.h:106-115 | add_new_table computes that state update |
| Bools.AddNewKeeps | toys/sets/bools.h:106-115 | adding an explained table keeps the search consistent and appends it to the history when it is new |
| Bools.GetNth | toys/sets/bools.h:100-105 | get_nth_table reads bits 4n to 4n + 3 of the history |
| Bools.NthFound | toys/sets/bools.h:100-105 | in a consistent search the n-th history table is the n-th table found |
| Bools.GatherAll | toys/sets/bools.h:131-132 | the inner loop gathers x and y through every input in turn |
| Bools.Row | toys/sets/bools.h:129-133 | the middle loop re-reads table_count, so it also visits tables found along the way |
| Bools.Round | toys/sets/bools.h:125-134 | one pass clears the flag, then gathers over every pair of tables found so far |
| Bools.AfterGather | toys/sets/bools.h:131-132 | the inner loop only adds tables and flags a change exactly when it adds one; when it adds none, every table gathered was already seen |
| Bools.AfterRound | toys/sets/bools.h:127-134 | a round only adds tables and flags a change exactly when it adds one |
| Bools.RoundKeeps | toys/sets/bools.h:125-135 | a round keeps the search consistent, reports a change exactly when it appended, and one without a change leaves the history closed |
| Bools.Seed | toys/sets/bools.h:117-123 | the search starts from the two identities, then the given tables in turn |
| Bools.SeededSeen | toys/sets/bools.h:117-123 | the seeded search marks both identities and every given table |
| Bools.SeedKeeps | toys/sets/bools.h:117-123 | the seeded search is consistent |
| Bools.Closure | toys/sets/bools.h:125-135 | the do-while ends with a round that finds nothing new |
| Bools.ClosureKeeps | toys/sets/bools.h:125-135 | the rounds keep the search consistent and end with a closed history |
| Bools.Characterize | toys/sets/bools.h:91-137 | a closed history that holds the base and explains each of its tables marks exactly the reachable tables |
| Bools.FindPossibleTable | toys/sets/bools.h:91-137 | entry k of the result is set iff the table with bits k can be reached from the identities and the inputs by gathering through the inputs |
| Ring.Wrap | toys/ring/ring.h:68-70 | a conversion to a w-bit unsigned type is below 2^w and leaves smaller values unchanged |
| Ring.DefaultElemFits | toys/ring/ring.h:39-47 | the storage default_elem picks holds the sum of two residues; 64 bits are chosen only when 32 cannot hold it; there is no storage exactly when 64 bits cannot |
| Ring.Width | toys/ring/ring.h:89 | the default storage is 32 or 64 bits wide and holds N and the sum of two residues |
| Ring.IsPrime | toys/ring/ring.h:49-55 | a true answer means no i >= 2 with i * i <= n divides n; below (2^32 - 1)^2 the answer is exactly that test |
| Ring.NoSmallFactorPrime | toys/ring/ring.h:49-58 | the test is_prime makes is primality for every n of at least 2 |
| Ring.SevenAndSix | toys/ring/ring.h:212-213 | 7 passes is_prime and 6 does not |
| Ring.MulMod | toys/ring/ring.h:63-74 | mul_mod returns a residue |
| Ring.MulModExact | toys/ring/ring.h:63-74 | for residue operands the widened product never wraps, so mul_mod is the product modulo M |
| Ring.SafePow | toys/ring/ring.h:76-87 | square-and-multiply computes base^exp modulo M, and 1 for exp 0 |
| Ring.Make | toys/ring/ring.h:94 | the constructor from storage reduces modulo N and keeps a residue unchanged |
| Ring.MakeFrom | toys/ring/ring.h:96-98 | the converting constructor reduces modulo N after the conversion, and keeps a residue unchanged |
| Ring.GroupPos | toys/ring/ring.h:108-110 | unary + is the value itself |
| Ring.GroupNeg | toys/ring/ring.h:112-114 | unary - is N - a, and 0 for 0 |
| Ring.GroupAdd | toys/ring/ring.h:116-118 | + is addition modulo N, with at most one subtraction of N |
| Ring.GroupSubAsWritten | toys/ring/ring.h:120-122 | the difference formed in the unsigned storage is right when a >= b |
| Ring.GroupSubWraps | toys/ring/ring.h:120-122 | in integer_module_group<7>, 0 - 1 as written is 3, and 3 + 1 is not 0 |
| Ring.GroupSub | toys/ring/ring.h:120-122 | the corrected - is subtraction modulo N |
| Ring.GroupMul | toys/ring/ring.h:124-128 | * is multiplication modulo N |
| Ring.GroupUnit | toys/ring/ring.h:194-196 | unit() is 0 |
| Ring.GroupOne | toys/ring/ring.h:198-200 | one() is 1, reduced modulo N |
| Ring.GroupLaws | toys/ring/ring.h:16-23 | + is commutative and associative with unit() as its identity; -a is the inverse of a; the corrected subtraction undoes + |
| Ring.RingPos | toys/ring/ring.h:163-165 | unary + is the value itself |
| Ring.RingAdd | toys/ring/ring.h:171-173 | the ring's + is the product modulo N |
| Ring.RingNeg | toys/ring/ring.h:167-169 | the ring's unary - is a^(N-2) modulo N |
| Ring.RingSub | toys/ring/ring.h:175-177 | a - b is a residue |
| Ring.RingUnitAsWritten | toys/ring/ring.h:207-209 | the ring's unit() as written is 0 |
| Ring.RingUnitAbsorbs | toys/ring/ring.h:207-209 | 0 absorbs everything under the ring's +, so it is no identity |
| Ring.RingUnit | toys/ring/ring.h:156-157 | the corrected unit is 1, the default constructor's value |
| Ring.RingLaws | toys/ring/ring.h:16-31 | the ring's + is commutative and associative, with 1 as its identity |
| Ring.RingInverse | toys/ring/ring.h:167-169 | for a nonzero residue, a + (-a) is the identity, by Fermat's little theorem |
| Ring.RingSubAdd | toys/ring/ring.h:175-177 | for nonzero b, (a - b) + b gives a back |
| Ring.RingExamples | toys/ring/ring.h:215-219 | 2 + 2 is 1 in integer_module_ring<3>, and -3 is 5 in integer_module_ring<7> |
| Ring.ModuleGroup.constructor | toys/ring/ring.h:94 | the object holds the value modulo N |
| Ring.ModuleGroup.AddAssign | toys/ring/ring.h:130-132 | += replaces the value with the sum |
| Ring.ModuleGroup.SubAssign | toys/ring/ring.h:134-136 | -= replaces the value with the corrected difference, and adding b back restores the old value |
| Ring.ModuleGroup.MulAssign | toys/ring/ring.h:138-142 | *= replaces the value with the product modulo N |
| Ring.ModuleRing.constructor | toys/ring/ring.h:156-157 | the object holds the value modulo N |
| Ring.ModuleRing.AddAssign | toys/ring/ring.h:179-181 | += replaces the value with the product modulo N |
| Ring.ModuleRing.SubAssign | toys/ring/ring.h:183-185 | -= replaces the value with a - b, and for nonzero b adding b back restores the old value |
| Primes.Fermat | toys/ring/ring.h:167-169 | a^(p-1) is 1 modulo a prime p that does not divide a |
| Serialize.AlignUpLeast | toys/serialize/sl.h:170-174 | align_up gives the least multiple of the power-of-two alignment that is at least n, when n plus the alignment does not wrap |
| Serialize.FromBinary | toys/serialize/sl.h:81-88 | from_binary throws "Invalid size" unless n is the scalar's size; otherwise it reads exactly that many bytes and advances the pointer by them |
| Serialize.DecodeEncodeWord | toys/serialize/sl.h:26-55 | reading back the bytes from into_bytes of a size_t gives the word back |
| Serialize.DecodeEncodeWords | toys/serialize/sl.h:26-55 | reading back the first k words of a sequence of words gives them back, whatever follows |
| Serialize.EqualHashMeaning | toys/serialize/sl.h:150-153 | two real hashes match only when equal, the constant-evaluation sentinel matches everything, and the test is symmetric |
| Serialize.ToN | toys/serialize/sl.h:216-221 | to_n throws "Invalid member count" unless the member count is N |
| Serialize.HeaderSizeFits | toys/serialize/sl.h:176-189 | sizeof(serialize_header<N>) is the least multiple of kAlign that holds the three words and N sizes; it is 32 for N = 0 |
| Serialize.HeaderBytes | toys/serialize/sl.h:176-200 | the header's bytes are exactly sizeof(serialize_header<N>) long |
| Serialize.PrefixArr | toys/serialize/sl.h:256-263 | prefix_arr lists the field indices of the dynamic fields in order |
| Serialize.OptionArr | toys/serialize/sl.h:264-274 | option_arr gives each field its static size, or its index among the dynamic fields |
| Serialize.PrefixInverse | toys/serialize/sl.h:256-274 | the entry of prefix_arr for a dynamic index is a field whose option is that index |
| Serialize.SlotInverse | toys/serialize/sl.h:256-274 | the index of a dynamic field's option leads back through prefix_arr to the field |
| Serialize.DynamicFieldsIncrease | toys/serialize/sl.h:256-263 | prefix_arr is strictly increasing |
| Serialize.DynSizes | toys/serialize/sl.h:293-304 | make_sizes_aux has one size per dynamic field |
| Serialize.SizesOfData | toys/serialize/sl.h:293-304 | with those sizes each field takes exactly as many bytes as its serializer gave |
| Serialize.Layout | toys/serialize/sl.h:306-338 | copy_value_aux<false> returns the end of the layout |
| Serialize.OffsetsApart | toys/serialize/sl.h:306-338 | every field starts after the header and ends before every later field starts, so no two overlap and none runs past need |
| Serialize.LayoutAligned | toys/serialize/sl.h:315-329 | every field starts at a multiple of its alignment, and need is a multiple of kAlign |
| Serialize.SimpleLayout | toys/serialize/sl.cpp:50-60 | for simple{int, long}, x sits at byte 32, y at byte 40, and the output is 48 bytes |
| Serialize.CopyInto | toys/serialize/sl.h:319-320 | the copy writes the source at the offset and leaves every other byte unchanged |
| Serialize.Serialize | toys/serialize/sl.h:376-398 | the output is need bytes long; it starts with a header recording need, the dynamic sizes and the hash, and it holds each field's bytes at that field's offset |
| Serialize.Checks | toys/serialize/sl.h:412-427 | deserialize's checks pass exactly when the address is aligned (outside constant evaluation), the input holds the three words and overall_size bytes, and the hash matches; outside constant evaluation the member count must also be N (the check of line 439) |
| Serialize.ReadField | toys/serialize/sl.h:340-372 | each field is read from its offset, as many bytes as its static or recorded size |
| Serialize.Deserialize | toys/serialize/sl.h:406-443 | a failed check gives its error; on success there is one value per field, and rest is what follows overall_size |
| Serialize.DeserializeInBounds | toys/serialize/sl.h:406-443 | what the corrected deserialize accepts has the header and every field within overall_size and the input |
| Serialize.RoundTrip | toys/serialize/sl.h:376-443 | serialize's output, followed by any bytes, deserializes to the fields' bytes with the trailing bytes as rest |
| Serialize.HeaderRoundTrip | toys/serialize/sl.h:390-391 | the header words read back are need, the member count, the hash and the dynamic sizes |
| Serialize.ValuesRoundTrip | toys/serialize/sl.h:340-372 | each field is read back from where serialize placed it |
| Serialize.RestAsWritten | toys/serialize/sl.h:430 | rest as written is input.subspan(input.size_bytes()), which is always empty |
| Serialize.RestLost | toys/serialize/sl.h:430 | bytes after a serialized record are lost as written, while the corrected rest keeps them |
| Serialize.ShortInputAccepted | toys/serialize/sl.h:418-423 | a 24-byte input holding only the three words passes every check as written, although simple's fields lie at bytes 32 to 48; the corrected deserialize rejects it |
| Serialize.MembersAsWritten | toys/serialize/sl.h:421-440 | outside constant evaluation to_n reinterprets the local 24-byte copy, so the member sizes come from beyond that copy |
| Serialize.MembersFromCopy | toys/serialize/sl.h:421-440 | for a record with a dynamic field, the sizes read as written differ from the written ones whenever the bytes beyond the copy do; the corrected read gets the written ones |
| Serialize.Convert | toys/serialize/sl.cpp:55-72 | under constant evaluation, convert(simple{1, 2}) reads x as 233 and y as 66 |
| TupleProduct.Sizes | template/tuple_product.cpp:130 | one tuple_size per tuple |
| TupleProduct.TagMul | template/tuple_product.cpp:41-49 | tag_mul has one element per pair of a first component and a rest tuple |
| TupleProduct.TagMulIndex | template/tuple_product.cpp:41-49 | entry a * \|rest\| + b of tag_mul is component a put in front of rest tuple b |
| TupleProduct.ProductOfNone | template/tuple_product.cpp:51-54 | the product of no tuples is one empty tuple |
| TupleProduct.ProductSize | template/tuple_product.cpp:51-63 | the product has one element per combination, the product of the tuple sizes |
| TupleProduct.ProductWidth | template/tuple_product.cpp:51-63 | each element of the product has one component per tuple |
| TupleProduct.ProductEmptyFactor | template/tuple_product.cpp:41-42 | a product with an empty factor is empty |
| TupleProduct.ProductElement | template/tuple_product.cpp:51-63 | the element at the index a digit vector stands for takes component d[i] from tuple i |
| TupleProduct.ValueOrder | template/tuple_product.cpp:41-63 | in range, index order is the lexicographic order of the digit vectors (first tuple slowest), and different digits give different indices |
| TupleProduct.CtorDigitsValue | template/tuple_product.cpp:112-124 | for every index inside the product, make_ctor_array gives digits in range that stand for that index |
| TupleProduct.CtorDigitsOfValue | template/tuple_product.cpp:112-124 | make_ctor_array inverts the digit value: the index of any digits in range gives those digits back |
| TupleProduct.ReverseInPlace | template/tuple_product.cpp:117 | std::ranges::reverse leaves the array reversed |
| TupleProduct.PeelDigits | template/tuple_product.cpp:118-121 | the loop takes digit i as the index modulo size i and divides the index by it before the next digit |
| TupleProduct.CtorArray | template/tuple_product.cpp:112-124 | make_ctor_array reverses the sizes, peels the digits and reverses them back |
| TupleProduct.TupleProductOf | template/tuple_product.cpp:126-154 | tuple_product builds exactly the product: element k takes from each tuple the component that make_ctor_array<k> names |
| TupleProduct.UnitTest0 | template/tuple_product.cpp:175-195 | the product of three pairs lists the eight triples in lexicographic order |
| TupleProduct.UnitTest2 | template/tuple_product.cpp:216-222 | (x0, x1) times (y0) is ((x0, y0), (x1, y0)) |
| Format.RenderPlain | toys/formatter/fmt.h:58 | plain format text is copied as it is and uses no argument |
| Format.RenderHole | toys/formatter/fmt.h:58 | each "{}" is replaced by the next argument |
| Format.RenderMissing | toys/formatter/fmt.h:58 | a "{}" with no argument left makes the format ill-formed |
| Format.RenderEscapes | toys/formatter/fmt.h:58 | "{{" and "}}" each print one brace |
| Format.RenderOne | toys/formatter/fmt.h:84 | a format with one "{}" between plain texts prints the argument between them |
| Format.RenderTwo | toys/formatter/fmt.h:71 | a format with two "{}" prints both arguments in order |
| Format.TupleFormatCells | toys/formatter/fmt.h:19-38 | the tuple format is l and r for no element; otherwise it is 4n characters: l, "{}", ", {}" repeated, and r at the end |
| Format.RenderRepeat | toys/formatter/fmt.h:29-34 | each repeated ", {}" uses one argument and prints ", " and that argument |
| Format.RenderTuple | toys/formatter/fmt.h:55-59 | the tuple format prints l, the arguments separated by ", ", and r |
| Format.JoinSnoc | toys/formatter/fmt.h:114-115 | joining one more text appends ", " and that text |
| Fmt.MakeTupleFormat | toys/formatter/fmt.h:19-38 | make_tuple_format fills a fresh array with exactly the tuple format |
| Fmt.CellsAreFormat | toys/formatter/fmt.h:25-35 | cells laid out as the loop writes them spell the tuple format |
| Fmt.GetFormatStr | toys/formatter/fmt.h:40-44 | the view covers the whole array: 2 characters for no element, 4n otherwise, with no terminator |
| Fmt.FormatTuple | toys/formatter/fmt.h:48-61 | a tuple prints as its elements in parentheses, separated by ", " |
| Fmt.FormatPair | toys/formatter/fmt.h:63-73 | a pair prints as "(a, b)" |
| Fmt.FormatOptional | toys/formatter/fmt.h:75-89 | an optional prints as "?<v>" when it holds v, and as "?None" otherwise |
| Fmt.FirstPiece | toys/formatter/fmt.h:113 | format_to with "{}" prints the element itself |
| Fmt.NextPiece | toys/formatter/fmt.h:115 | format_to with ", {}" prints ", " and the element |
| Fmt.FormatRange | toys/formatter/fmt.h:98-120 | a range prints as "[", its elements separated by ", ", then "]" |
| Fmt.FormatBitset | toys/formatter/fmt.h:135-145 | a bitset prints one character per bit, the highest bit first, '1' for a set bit |
| Fmt.FormatAggregate | toys/formatter/fmt.h:122-133 | an aggregate prints as the tuple of its members |
| Formatter.MakeTupleFormat | template/formatter.h:11-30 | the array is the tuple format in angle brackets followed by one NUL cell |
| Formatter.CellsAreFormat | template/formatter.h:17-27 | cells laid out as the loop writes them spell that format and its terminator |
| Formatter.CString | template/formatter.h:45 | data() read as a C string is the longest prefix before the first NUL |
| Formatter.CStringTerminated | template/formatter.h:45 | a text without NUL, followed by a NUL, reads back as itself |
| Formatter.FormatTuple | template/formatter.h:34-48 | a tuple prints as its elements in angle brackets, separated by ", " |
| Formatter.FormatPair | template/formatter.h:50-60 | a pair prints as "<a, b>" |
| Formatter.ShowTuple | template/formatter.h:34-48 | a nested tuple prints as the texts of its items in angle brackets |
| Formatter.ShowEmpty | template/formatter.h:13-14 | the empty tuple prints as "<>" |
| Formatter.ShowFour | template/tuple_product.cpp:205-210 | a four-element tuple prints as its four texts separated by ", " in angle brackets |
| Formatter.ShowProduct | template/tuple_product.cpp:204-212 | a tuple product prints as its combinations, each in angle brackets, inside one more pair of angle brackets |
| Optional.OptionalRef.Empty | toys/optional/opt.h:31 | optional(nullopt) is empty |
| Optional.OptionalRef.FromPointer | toys/optional/opt.h:32 | optional(T *) holds that pointer, so a null pointer gives an empty optional |
| Optional.OptionalRef.Of | toys/optional/opt.h:33 | optional(T &) refers to that object |
| Optional.OptionalRef.Copy | toys/optional/opt.h:36 | a copy holds the same pointer |
| Optional.OptionalRef.HasValue | toys/optional/opt.h:55-61 | has_value and operator bool hold exactly when the pointer is not null |
| Optional.OptionalRef.Deref | toys/optional/opt.h:47-49 | operator* is the referent |
| Optional.OptionalRef.Value | toys/optional/opt.h:63-67 | value() throws bad_optional_access exactly when empty, and is otherwise the referent |
| Optional.OptionalRef.View | toys/optional/opt.h:47-61 | the referent's current value when there is one |
| Optional.OptionalRef.ValueOr | toys/optional/opt.h:69-72 | value_or(d) is the referent's value when there is one, d otherwise |
| Optional.OptionalRef.Transform | toys/optional/opt.h:74-78 | transform(fn) is fn of the referent's value when there is one, empty otherwise |
| Optional.OptionalRef.AndThen | toys/optional/opt.h:80-85 | and_then(fn) is what fn returns for the referent's value, empty when there is none |
| Optional.OptionalRef.OrElse | toys/optional/opt.h:87-91 | or_else(fn) is this optional when it has a value, else what fn returns |
| Optional.OptionalRef.Swap | toys/optional/opt.h:93-95 | swap exchanges the two pointers |
| Optional.OptionalRef.Reset | toys/optional/opt.h:97-99 | reset empties the optional |
| Optional.OptionalRef.Emplace | toys/optional/opt.h:101-104 | emplace rebinds to the object and returns it |
| Optional.OrAssigned | toys/optional/opt.h:166-172 | \|= keeps a value already there, otherwise takes the right-hand side |
| Optional.AndAssigned | toys/optional/opt.h:174-180 | &= stays empty when empty, otherwise takes the right-hand side |
| Optional.OptionalRef.OrAssign | toys/optional/opt.h:166-172 | opt \|= v changes the pointer as \|= prescribes |
| Optional.OptionalRef.OrAssignWith | toys/optional/opt.h:139-145 | opt \|= fn calls fn only when empty and then takes its result |
| Optional.OptionalRef.AndAssign | toys/optional/opt.h:174-180 | opt &= v changes the pointer as &= prescribes |
| Optional.OptionalRef.AndAssignWith | toys/optional/opt.h:147-153 | opt &= fn calls fn on the referent only when there is one and takes its result |
| Optional.OrCall | toys/optional/opt.h:110-123 | opt \|\| fn is the value, or fn() when empty |
| Optional.AndCall | toys/optional/opt.h:125-137 | opt && fn is fn of the value, or empty when there is none |
| Optional.Pipe | toys/optional/opt.h:155-164 | opt \| v is the value, or v when empty |
| Optional.OrElseValue | toys/optional/opt.h:155-164 | opt \| t with an optional t is this optional when it has a value, else t |
| Optional.PipeIsValueOr | toys/optional/opt.h:155-164 | opt \| v on a reference optional is its value_or(v) |
| Optional.OrCallIsPipe | toys/optional/opt.h:110-123 | opt \|\| fn with a constant fn is opt \| v |
| Optional.TransformIsAndCall | toys/optional/opt.h:74-85 | transform(fn) is opt && (x => some fn(x)), and and_then(fn) is opt && fn |
| Optional.AssignOperators | toys/optional/opt.h:166-180 | \|= has a value exactly when either side does; &= has one exactly when both do; both are idempotent |
| Optional.Demo | toys/optional/opt.cpp:8-37 | in the sample program the lookup fails and 233 is printed; after opt \|= x the callback of && sets x to 0 before printing its parameter, an alias of x, so "opt = 0" is printed; the program exits with 0 |
| IRange.Next | csrc/include/utils/irange.h:17-20 | ++ on size_t adds one, and wraps to 0 at the top |
| IRange.Prev | csrc/include/utils/irange.h:26-29 | -- on size_t subtracts one, and wraps to the top at 0 |
| IRange.StepBack | csrc/include/utils/irange.h:17-29 | ++ and -- undo each other |
| IRange.Iterator.constructor | csrc/include/utils/irange.h:13 | the iterator holds the given value |
| IRange.Iterator.Deref | csrc/include/utils/irange.h:14-16 | *it is the stored value |
| IRange.Iterator.Equals | csrc/include/utils/irange.h:36 | two iterators are equal exactly when their values are |
| IRange.Iterator.Increment | csrc/include/utils/irange.h:17-20 | ++it steps the value in place and returns the iterator itself |
| IRange.Iterator.PostIncrement | csrc/include/utils/irange.h:21-25 | it++ returns a fresh copy holding the old value, and the iterator steps |
| IRange.Iterator.Decrement | csrc/include/utils/irange.h:26-29 | --it steps back in place and returns the iterator itself |
| IRange.Iterator.PostDecrement | csrc/include/utils/irange.h:30-34 | it-- returns a fresh copy holding the old value, and the iterator steps back |
| IRange.IntegerRange.Begin | csrc/include/utils/irange.h:44-46 | begin() is a fresh iterator at the first value |
| IRange.IntegerRange.End | csrc/include/utils/irange.h:47-50 | end() is a fresh iterator at the end value |
| IRange.Irange | csrc/include/utils/irange.h:57-60 | irange(to) runs from 0 to to |
| IRange.IrangeFrom | csrc/include/utils/irange.h:62-65 | irange(from, to) runs from from to to |
| IRange.Steps | csrc/include/utils/irange.h:17-20 | the number of ++ steps from begin to end is end - begin when begin <= end |
| IRange.SpanFrom | csrc/include/utils/irange.h:62-65 | irange(from, to) with from <= to visits every value of [from, to) once, in increasing order, and nothing else |
| IRange.Span | csrc/include/utils/irange.h:57-60 | irange(to) visits 0, 1, ..., to - 1 |
| IRange.EmptyRange | csrc/include/utils/irange.h:36-50 | a range whose begin equals its end visits nothing |
| IRange.StepCount | csrc/include/utils/irange.h:17-36 | the iterator reaches end after exactly Steps(r) increments, and not before |
| IRange.Iterate | csrc/include/utils/irange.h:13-50 | a range-for loop visits exactly the elements of the range, in order |

## Left out

- The concurrency of misc/shared_map_2.cpp is left out: the shared and exclusive mutexes, `atomic_size_t`, and the blocking of `packaged_task` and `shared_future`. One thread runs the cache. Readiness is an explicit pending or ready state, and the two phases of `try_insert` are separate steps, so another thread's insertion between them is an input of `CacheSpec.Acquire`.
- The threaded `test_1` to `test_3`, the `benchmark` and the `cout` in `Policy::compute` of misc/shared_map_2.cpp are left out. The compute log `computed` stands for the "Computing" lines.
- The key types of the cache are tags with one key value type `K` (test_0's `int` and `long long` both become `int`). `Policy` is a parameter, a record of pure functions.
- CacheSpec.RunTask, Cache.SizedCache.RunTask, Get and Pop: a `Policy::compute` that throws is not modelled; compute always returns a value. This leaves out three things in misc/shared_map_2.cpp. (1) `packaged_task` stores the exception in the shared future, so the entry becomes ready but failed. (2) `future.get()` in `Get` rethrows it to every caller of that key (line 202). (3) `value.get().size` in `Pop`'s evict callback rethrows it inside `lru_evict` (line 246). That exception leaves the do-while in the middle of its splice (lines 122-161), so the `evicted` and `waiting` nodes are freed while entries still hold their iterators. The model promises nothing about a cache after a failed compute.
- misc/shared_map_2.cpp's `LockedMap::erase` is modelled; the file misc/shared_map.cpp is not part of this model.
- In both tries the nodes owned by `unique_ptr` live in an arena (int_set) or are values (str_set). Destructors, deleters and the freeing of memory are not modelled, and neither are parent pointers, which no modelled operation reads.
- The tries' iterator types model only dereferencing, the one operation `insert` and `find` results are used for.
- `panic` and `assume` in the tries become preconditions or proved assertions.
- StrSet: keys are Dafny strings, and `children` is a map keyed by character. This leaves out the 256-slot array, and with it the negative index a `char` above 127 gives.
- The bitsets of toys/sets/bools.h are `seq<bool>`, and truth-table indices are naturals; the 64-bit width of `to_ulong` is not modelled.
- The ring model stores values as naturals below the modulus, in the default 32- or 64-bit storage that `default_elem` picks (`Ring.Width`). Only the group's binary minus needs the storage-width wrap, and that is modelled. Other storage types are not modelled, and neither is the field concept of toys/ring/ring.h.
- Ring.IsPrime: the answer is exact only for n below (2^32 - 1)^2. For larger n the model states only that a prime answer has no small factor, because the source's 64-bit `i * i` can wrap there.
- Serialize.AlignUp and Serialize.AlignUpLeast: the least-multiple property holds when `n + N - 1` does not wrap past 2^64. Beyond that the model computes the source's wrapped value but states nothing about it.
- Serialize: `memcpy`, `bit_cast`, `assume_aligned` and float bit patterns are left out. A field is modelled by its byte image, its size if it is fixed, and its alignment. `reflect::flatten` becomes a list of fields, and the `typeid` hash is a parameter, which may be the sentinel.
- Serialize: the input's address and whether the call is a constant evaluation are parameters of `Deserialize`, because the model has no memory and no compile time.
- TupleProduct: the tuples of references and their aliasing are not modelled. The product's elements are values, and the differently typed components become one element type.
- Format, Fmt and Formatter: only the replacement field `{}` and the escapes `{{` and `}}` of std::format are modelled. Each element's own formatting is abstract: an element is given as its text. Output iterators and streams are left out.
- Optional: callbacks are pure functions, so side effects from inside `fn` are not modelled. The forms of `||` and `&&` whose callback returns void are left out. So are `operator->` and the converting constructor from another optional.
- Optional: the free operators `||`, `&&` and `|` are modelled on value optionals, which are the referent's value at the time of the call.
- IRange: only the default `std::size_t` instantiation is modelled. Its `++` and `--` wrap modulo 2^64. Signed instantiations, where overflow is undefined behaviour, are not modelled.

## Findings

| source | as written | input that shows it | evidently intended | confidence | as-written member | corrected member |
|---|---|---|---|---|---|---|
| csrc/include/set/int_set.h:195-197 | `auto leaf = static_cast<leaf_node &>(...)` copies the leaf, so `try_set` sets the bit on the copy only, and the iterator returned holds `&leaf`, the address of that local copy, which dangles once insert returns | insert(1) then insert(2): both keys share one leaf, insert(2) reports true, find(2) then has no value, and the iterator insert(2) returned points into no node of the trie | `auto &leaf`, so the bit is set in the trie's own leaf | not executed | IntSet.IntTrie.InsertAsWritten | IntSet.IntTrie.Insert |
| csrc/include/set/str_set.h:180-181 | a leaf counts as a hit when the whole leaf prefix matches, even if the key goes on | with "-ab" stored, find("-abc") has a value, insert("-abc") reports false, and erase("-abc") removes "-ab" | a leaf is a hit only when the key ends exactly at the leaf | not executed | StrSet.LeafQuirk | StrSet.InsertExactHolds |
| toys/ring/ring.h:120-122 | the group's binary minus subtracts the unsigned storage, which wraps modulo 2^32 before the reduction | integer_module_group<7>: 0 - 1 gives 3, and 3 + 1 is not 0 | (a - b) modulo N, which is a + (N - b) when a < b | not executed | Ring.GroupSubWraps | Ring.GroupSub |
| toys/ring/ring.h:207-209 | the ring's unit() is 0, while the ring's + is multiplication, whose identity is 1 | integer_module_ring<7>: unit() + a is 0 for every a | unit() returns 1 | not executed | Ring.RingUnitAbsorbs | Ring.RingUnit |
| toys/serialize/sl.h:430 | `rest` is the subspan from the input's end, so it is always empty | a serialised record followed by any nonempty bytes: rest is empty | the bytes after `overall_size` | not executed | Serialize.RestLost | Serialize.RoundTrip |
| toys/serialize/sl.h:418-423 | the size checks compare against the header and `overall_size` only, so the fields can be read past the input's end | for the record {int, long}: a 24-byte header that claims overall size 24 passes both checks, but the fields need bytes beyond 24 | reject input shorter than the header of Nm dynamic sizes and the field layout | not executed | Serialize.ShortInputAccepted | Serialize.DeserializeInBounds |
| toys/serialize/sl.h:421-440 | outside constant evaluation, `to_n` reinterprets the local copy `meta`, whose dynamic sizes lie beyond the three words it holds | any record with a dynamic field: the sizes read are whatever follows `meta`, not the input's own sizes | read the dynamic sizes from the input, as the constant-evaluation branch does | not executed | Serialize.MembersFromCopy | Serialize.RoundTrip |
