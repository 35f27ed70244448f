/**
 * dark::int_set (csrc/include/set/int_set.h): a 16-way trie over 64-bit
 * keys whose leaves hold 4096-bit bitsets.  The nodes live in an arena (a
 * sequence indexed by node id, id 0 being the root), so that the
 * `children` slots the source rewires become updates of one arena cell and
 * a fresh node is appended at the end.
 */
module IntSet {
  import opened Wrappers
  import opened Bits

  /** std::uint64_t. */
  type U64 = x: nat | x < 0x1_0000_0000_0000_0000

  /** A leaf covers 2^12 keys: leaf_node::kMask + 1. */
  const LeafBits: nat := 12
  /** kBitLen = bit_width(normal_node::kMask): the bits one level consumes. */
  const BitLen: nat := 4

  /**
   * base_node with its two final types.  `bit` of a leaf is always 12, so a
   * Leaf does not store it; `count` is its number of set bits.
   */
  datatype Node =
    | Leaf(prefix: nat, count: nat, bits: set<nat>)
    | Normal(prefix: nat, bit: nat, children: seq<Option<nat>>)

  function Bit(n: Node): nat {
    if n.Leaf? then LeafBits else n.bit
  }

  /** base_node::start: the least key the node covers. */
  function Start(n: Node): nat {
    Shl(n.prefix, Bit(n))
  }

  /** base_node::contains. */
  predicate Contains(n: Node, v: nat) {
    Shr(v, Bit(n)) == n.prefix
  }

  /** The low 12 bits of a key, its position in a leaf's bitset: v & kMask. */
  function Offset(v: nat): (r: nat)
    ensures r == v % Pow2(LeafBits) && r < Pow2(LeafBits)
  {
    AndLow(v, LeafBits);
    And(v, Pow2(LeafBits) - 1)
  }

  /** normal_node::operator[]: the child slot of v, (v >> (bit - 4)) & 15. */
  function Slot(n: Node, v: nat): (r: nat)
    requires n.Normal? && n.bit >= BitLen
    ensures r == Shr(v, n.bit - BitLen) % 16 && r < 16
  {
    AndLow(Shr(v, n.bit - BitLen), BitLen);
    Pow2Values();
    And(Shr(v, n.bit - BitLen), Pow2(BitLen) - 1)
  }

  lemma Pow2Values()
    ensures Pow2(4) == 16 && Pow2(8) == 256 && Pow2(12) == 4096 && Pow2(16) == 65536
  {
    assert Pow2(2) == 4;
    assert Pow2(4) == 16;
    assert Pow2(6) == 64;
    assert Pow2(8) == 256;
    assert Pow2(10) == 1024;
    assert Pow2(12) == 4096;
    assert Pow2(14) == 16384;
  }

  /** The base_node constructor's assumptions: the prefix fits above `bit`
    * in 64 bits, and `bit` is a whole number of levels. */
  predicate HeaderOk(prefix: nat, bit: nat) {
    BitWidth(prefix) + bit <= 64 && bit % BitLen == 0
  }

  /** Node `c` may sit in slot `s` of the normal node `n`: it is lower in the
    * trie and every key it covers is routed to that slot. */
  predicate Fits(n: Node, s: nat, c: Node)
    requires n.Normal? && n.bit >= BitLen
  {
    Bit(c) + BitLen <= n.bit && Shr(Start(c), n.bit - BitLen) == n.prefix * 16 + s
  }

  /** A leaf's header is valid, `count` counts its bits and every bit is one of its 4096. */
  predicate LeafOk(n: Node)
    requires n.Leaf?
  {
    && HeaderOk(n.prefix, LeafBits)
    && n.count == |n.bits|
    && (forall o | o in n.bits :: o < Pow2(LeafBits))
  }

  /** The constructor assumptions of every node, a leaf's count, and the fit of every child. */
  ghost predicate NodeWf(nodes: seq<Node>, i: nat)
    requires i < |nodes|
  {
    match nodes[i]
    case Leaf(_, _, _) => LeafOk(nodes[i])
    case Normal(prefix, bit, ch) =>
      && HeaderOk(prefix, bit)
      && LeafBits < bit <= 64
      && |ch| == 16
      && (forall s | 0 <= s < 16 && ch[s].Some? :: ch[s].value < |nodes| && Fits(nodes[i], s, nodes[ch[s].value]))
  }

  /** The arena is a trie: the root m_root{0, nullptr, 64} at id 0, every node well formed. */
  ghost predicate Wf(nodes: seq<Node>) {
    && |nodes| > 0
    && nodes[0].Normal? && nodes[0].prefix == 0 && nodes[0].bit == 64
    && (forall i | 0 <= i < |nodes| :: NodeWf(nodes, i))
  }

  /** Where the descent loop of s_try_insert / s_try_remove / s_try_locate stops. */
  datatype End =
    | Vacant(parent: nat)              // the slot for v is null
    | Mismatch(parent: nat, child: nat) // the child there does not cover v
    | AtLeaf(parent: nat, leaf: nat)   // the leaf there covers v

  /** The descent from the normal node `p`. */
  ghost function Descend(nodes: seq<Node>, p: nat, v: nat): End
    requires Wf(nodes) && p < |nodes| && nodes[p].Normal?
    decreases nodes[p].bit
  {
    assert NodeWf(nodes, p);
    var n := nodes[p];
    var s := Slot(n, v);
    match n.children[s]
    case None => Vacant(p)
    case Some(c) =>
      if !Contains(nodes[c], v) then Mismatch(p, c)
      else if nodes[c].Leaf? then AtLeaf(p, c)
      else Descend(nodes, c, v)
  }

  /** The slot of the normal node `p` that v is routed to. */
  function SlotAt(nodes: seq<Node>, p: nat, v: nat): (r: nat)
    requires Wf(nodes) && p < |nodes| && nodes[p].Normal?
    ensures r < |nodes[p].children|
  {
    assert NodeWf(nodes, p);
    Slot(nodes[p], v)
  }

  /** What that slot holds. */
  function ChildAt(nodes: seq<Node>, p: nat, v: nat): Option<nat>
    requires Wf(nodes) && p < |nodes| && nodes[p].Normal?
  {
    nodes[p].children[SlotAt(nodes, p, v)]
  }

  /** The leaf reached has the key's bit set: what find(v).has_value() reports. */
  ghost predicate Hit(nodes: seq<Node>, e: End, v: nat) {
    e.AtLeaf? && e.leaf < |nodes| && nodes[e.leaf].Leaf? && Offset(v) in nodes[e.leaf].bits
  }

  /** Key v is in the set. */
  ghost predicate Member(nodes: seq<Node>, v: nat)
    requires Wf(nodes)
  {
    Hit(nodes, Descend(nodes, 0, v), v)
  }

  /** The descent from `p` passes through the normal node `q`. */
  ghost predicate Visits(nodes: seq<Node>, p: nat, v: nat, q: nat)
    requires Wf(nodes) && p < |nodes| && nodes[p].Normal?
    decreases nodes[p].bit
  {
    assert NodeWf(nodes, p);
    var n := nodes[p];
    var s := Slot(n, v);
    || p == q
    || (n.children[s].Some? && Contains(nodes[n.children[s].value], v)
        && nodes[n.children[s].value].Normal? && Visits(nodes, n.children[s].value, v, q))
  }

  lemma Pow2Word()
    ensures Pow2(64) == 0x1_0000_0000_0000_0000
  {
    Pow2Values();
    Pow2Add(16, 16);
    Pow2Add(32, 32);
  }

  /** The root covers every 64-bit key. */
  lemma RootContains(nodes: seq<Node>, v: U64)
    requires Wf(nodes)
    ensures Contains(nodes[0], v)
  {
    Pow2Word();
    ShrZero(v, 64);
  }

  /** A visited normal node is no higher than where the descent starts. */
  lemma {:induction false} VisitsBit(nodes: seq<Node>, p: nat, v: nat, q: nat)
    requires Wf(nodes) && p < |nodes| && nodes[p].Normal? && q < |nodes| && nodes[q].Normal?
    ensures Visits(nodes, p, v, q) ==> nodes[q].bit <= nodes[p].bit
    decreases nodes[p].bit
  {
    assert NodeWf(nodes, p);
    if p != q && Visits(nodes, p, v, q) {
      var c := nodes[p].children[Slot(nodes[p], v)].value;
      VisitsBit(nodes, c, v, q);
    }
  }

  /**
   * Where the descent from a node covering v stops: at a normal node on the
   * path that covers v, with its slot for v empty, holding a node that does
   * not cover v, or holding the leaf that does.
   */
  lemma {:induction false} EndFacts(nodes: seq<Node>, p: nat, v: nat)
    requires Wf(nodes) && p < |nodes| && nodes[p].Normal? && Contains(nodes[p], v)
    ensures var e := Descend(nodes, p, v);
            && e.parent < |nodes| && nodes[e.parent].Normal? && Contains(nodes[e.parent], v)
            && Visits(nodes, p, v, e.parent) && Descend(nodes, e.parent, v) == e
    ensures var e := Descend(nodes, p, v);
            e.parent < |nodes| && nodes[e.parent].Normal? &&
            var ch := ChildAt(nodes, e.parent, v);
            && (e.Vacant? ==> ch.None?)
            && (e.Mismatch? ==> ch == Some(e.child) && e.child < |nodes| && !Contains(nodes[e.child], v))
            && (e.AtLeaf? ==> ch == Some(e.leaf) && e.leaf < |nodes| && nodes[e.leaf].Leaf? && Contains(nodes[e.leaf], v))
    decreases nodes[p].bit
  {
    assert NodeWf(nodes, p);
    var ch := nodes[p].children[Slot(nodes[p], v)];
    if ch.Some? && Contains(nodes[ch.value], v) && nodes[ch.value].Normal? {
      EndFacts(nodes, ch.value, v);
    }
  }

  /** Decent and Fits read a node's kind, prefix and bit only. */
  predicate SameHeader(a: Node, b: Node) {
    a.Leaf? == b.Leaf? && a.prefix == b.prefix && Bit(a) == Bit(b)
  }

  /** Fits reads the parent's header only. */
  lemma FitsHeader(a: Node, b: Node, s: nat, c: Node)
    requires a.Normal? && b.Normal? && SameHeader(a, b) && a.bit >= BitLen
    ensures Fits(a, s, c) == Fits(b, s, c)
  {
  }

  /**
   * `after` is `before` with slot s of the normal node q pointed elsewhere
   * and, perhaps, new nodes appended.
   */
  ghost predicate Rewired(before: seq<Node>, after: seq<Node>, q: nat, s: nat) {
    && q < |before| <= |after|
    && before[q].Normal? && after[q].Normal? && SameHeader(before[q], after[q])
    && LeafBits < before[q].bit
    && s < |before[q].children| == |after[q].children|
    && after[q].children == before[q].children[s := after[q].children[s]]
    && (forall i | 0 <= i < |before| && i != q :: after[i] == before[i])
  }

  /** Rewiring one slot and appending well-formed nodes keeps the trie well formed
    * when the slot's new node fits there. */
  lemma WfRewired(before: seq<Node>, after: seq<Node>, q: nat, s: nat)
    requires Wf(before) && Rewired(before, after, q, s)
    requires forall i | |before| <= i < |after| :: NodeWf(after, i)
    requires after[q].children[s].Some? ==>
               after[q].children[s].value < |after| && Fits(after[q], s, after[after[q].children[s].value])
    ensures Wf(after)
  {
    forall i | 0 <= i < |before|
      ensures NodeWf(after, i)
    {
      assert NodeWf(before, i);
      if before[i].Normal? {
        forall t | 0 <= t < 16 && after[i].children[t].Some? && !(i == q && t == s)
          ensures after[i].children[t].value < |after| && Fits(after[i], t, after[after[i].children[t].value])
        {
          var c := before[i].children[t].value;
          assert SameHeader(before[c], after[c]);
        }
      }
    }
  }

  /**
   * After a rewiring, a descent that does not take slot s of q ends where it
   * used to; one that does continues from q.
   */
  lemma {:induction false} SlotFrame(before: seq<Node>, after: seq<Node>, q: nat, s: nat, p: nat, w: nat)
    requires Wf(before) && Wf(after) && Rewired(before, after, q, s)
    requires p < |before| && before[p].Normal?
    ensures after[p].Normal?
    ensures Visits(before, p, w, q) && SlotAt(before, q, w) == s ==>
              Descend(after, p, w) == Descend(after, q, w) && Descend(before, p, w) == Descend(before, q, w)
    ensures !(Visits(before, p, w, q) && SlotAt(before, q, w) == s) ==>
              Descend(after, p, w) == Descend(before, p, w)
    decreases before[p].bit
  {
    assert NodeWf(before, p);
    var ch := before[p].children[Slot(before[p], w)];
    if ch.Some? && Contains(before[ch.value], w) && before[ch.value].Normal? {
      var c := ch.value;
      VisitsBit(before, c, w, q);
      SlotFrame(before, after, q, s, c, w);
    }
  }

  /** Peeling one level off a shift: x >> (k - 4) is (x >> k) * 16 plus the slot. */
  lemma ShrSplit(x: nat, k: nat)
    requires k >= BitLen
    ensures Shr(x, k - BitLen) == 16 * Shr(x, k) + Shr(x, k - BitLen) % 16
  {
    ShrShr(x, k - BitLen, BitLen);
    ShrDiv(Shr(x, k - BitLen), BitLen);
    Pow2Values();
  }

  /** Clearing the low b bits and shifting by k >= b is shifting by k. */
  lemma StartRoute(x: nat, b: nat, k: nat)
    requires b <= k
    ensures Shr(Shl(Shr(x, b), b), k) == Shr(x, k)
  {
    ShlShr(Shr(x, b), b, k);
    ShrShr(x, b, k - b);
  }

  /** A key covered by a child is covered by its parent and routed to the child's slot. */
  lemma FitsRoute(n: Node, s: nat, c: Node, w: nat)
    requires n.Normal? && LeafBits < n.bit && s < 16 && Fits(n, s, c) && Contains(c, w)
    ensures Contains(n, w) && Slot(n, w) == s
  {
    var k := n.bit - BitLen;
    assert Start(c) == Shl(Shr(w, Bit(c)), Bit(c));
    StartRoute(w, Bit(c), k);
    ShrSplit(w, n.bit);
    DivUnique(Shr(w, k), 16, n.prefix, s);
    DivUnique(Shr(w, k), 16, Shr(w, n.bit), Shr(w, k) % 16);
  }

  /** The shifted value of a 64-bit key fits in the bits above the shift. */
  lemma ShrBound(v: U64, b: nat)
    requires b <= 64
    ensures BitWidth(Shr(v, b)) + b <= 64
  {
    Pow2Word();
    Pow2Add(b, 64 - b);
    ShrDiv(v, b);
    DivBelow(v, Pow2(b), Pow2(64 - b));
    BitWidthFits(Shr(v, b), 64 - b);
  }

  /** Two keys of one leaf with the same offset are equal. */
  lemma LeafKey(n: Node, v: nat, w: nat)
    requires n.Leaf? && Contains(n, v) && Contains(n, w) && Offset(v) == Offset(w)
    ensures v == w
  {
    ShrDiv(v, LeafBits);
    ShrDiv(w, LeafBits);
    DivModSame(v, w, Pow2(LeafBits));
  }

  /** leaf_node::try_set: set the key's bit; report whether it was clear. */
  function TrySet(n: Node, v: nat): (r: (Node, bool))
    requires n.Leaf? && LeafOk(n)
    ensures r.0.Leaf? && r.0.prefix == n.prefix && r.0.bits == n.bits + {Offset(v)}
    ensures r.1 <==> Offset(v) !in n.bits
    ensures LeafOk(r.0)
  {
    if Offset(v) in n.bits then (n, false)
    else (n.(count := n.count + 1, bits := n.bits + {Offset(v)}), true)
  }

  /** leaf_node::try_unset: clear the key's bit; report whether it was set. */
  function TryUnset(n: Node, v: nat): (r: (Node, bool))
    requires n.Leaf? && LeafOk(n)
    ensures r.0.Leaf? && r.0.prefix == n.prefix && r.0.bits == n.bits - {Offset(v)}
    ensures r.1 <==> Offset(v) in n.bits
    ensures LeafOk(r.0)
  {
    if Offset(v) in n.bits then (n.(count := n.count - 1, bits := n.bits - {Offset(v)}), true)
    else (n, false)
  }

  /** leaf_node::test. */
  predicate Test(n: Node, v: nat)
    requires n.Leaf?
  {
    Offset(v) in n.bits
  }

  /** Setting a clear bit and clearing it again gives the leaf back, and the other way round. */
  lemma SetUnset(n: Node, v: nat)
    requires n.Leaf? && LeafOk(n)
    ensures TrySet(n, v).1 ==> TryUnset(TrySet(n, v).0, v) == (n, true)
    ensures TryUnset(n, v).1 ==> TrySet(TryUnset(n, v).0, v) == (n, true)
  {
    var o := Offset(v);
    if o !in n.bits {
      assert n.bits + {o} - {o} == n.bits;
    } else {
      assert n.bits - {o} + {o} == n.bits;
      assert |n.bits - {o}| == |n.bits| - 1;
    }
  }

  /** s_make_leaf: a leaf covering v with v's bit set. */
  function MakeLeaf(v: U64): (r: Node)
    ensures r.Leaf? && LeafOk(r) && Contains(r, v) && r.bits == {Offset(v)}
  {
    ShrBound(v, LeafBits);
    TrySet(Leaf(Shr(v, LeafBits), 0, {}), v).0
  }

  /** s_make_normal: an empty normal node at bit b covering v. */
  function MakeNormal(v: U64, b: nat): (r: Node)
    requires LeafBits < b <= 64 && b % BitLen == 0
    ensures r.Normal? && r.bit == b && HeaderOk(r.prefix, b) && Contains(r, v)
    ensures |r.children| == 16 && forall t | 0 <= t < 16 :: r.children[t].None?
  {
    ShrBound(v, b);
    Normal(Shr(v, b), b, seq(16, _ => None))
  }

  /** iterator::operator*: the offset or-ed onto the leaf's start. */
  function Deref(n: Node, offset: nat): nat {
    Or(offset, Start(n))
  }

  /** An iterator built for v on the leaf covering v dereferences to v. */
  lemma DerefKey(n: Node, v: nat)
    requires n.Leaf? && Contains(n, v)
    ensures Deref(n, Offset(v)) == v
  {
    OrDisjoint(Offset(v), n.prefix, LeafBits);
    ShrDiv(v, LeafBits);
    assert v == Shr(v, LeafBits) * Pow2(LeafBits) + v % Pow2(LeafBits);
  }

  /** A fresh leaf for v fits the slot v is routed to in a node covering v. */
  lemma LeafFits(n: Node, v: U64)
    requires n.Normal? && LeafBits < n.bit && n.bit % BitLen == 0 && Contains(n, v)
    ensures Fits(n, Slot(n, v), MakeLeaf(v))
  {
    StartRoute(v, LeafBits, n.bit - BitLen);
    ShrSplit(v, n.bit);
  }

  /** The bit of the middle node of s_split_at: bit_width(v ^ u) rounded up to a whole level. */
  function SplitBit(v: nat, u: nat): nat {
    (BitWidth(Xor(v, u)) + BitLen - 1) / BitLen * BitLen
  }

  lemma CeilLevel(t: nat, b: nat, top: nat)
    requires b < t && t + 4 <= top && b % 4 == 0 && top % 4 == 0
    ensures var l := (t + 4 - 1) / 4 * 4;
            l % 4 == 0 && t <= l < t + 4 && b + 4 <= l && l + 4 <= top
  {
  }

  /** A key covered by a normal node, shifted to the next level: prefix and slot. */
  lemma SlotShr(n: Node, v: nat)
    requires n.Normal? && n.bit >= BitLen && Contains(n, v)
    ensures Shr(v, n.bit - BitLen) == 16 * n.prefix + Slot(n, v)
  {
    ShrSplit(v, n.bit);
  }

  /** A node's start has the node's prefix. */
  lemma StartShr(c: Node)
    ensures Shr(Start(c), Bit(c)) == c.prefix
  {
    ShlShr(c.prefix, Bit(c), Bit(c));
    assert Pow2(0) == 1;
  }

  /** A node covers exactly the 2^bit keys from its start on: contains(v)
    * holds iff v >> bit == prefix, and start() is prefix << bit. */
  lemma Covers(n: Node, v: nat)
    ensures Start(n) == n.prefix * Pow2(Bit(n)) && Shr(Start(n), Bit(n)) == n.prefix
    ensures Contains(n, v) <==> Start(n) <= v < Start(n) + Pow2(Bit(n))
  {
    StartShr(n);
    ShrDiv(v, Bit(n));
    CoversBy(n.prefix, Pow2(Bit(n)), v);
  }

  lemma CoversBy(p: nat, d: nat, v: nat)
    requires d > 0
    ensures v / d == p <==> p * d <= v < p * d + d
  {
    if p * d <= v < p * d + d {
      DivUnique(v, d, p, v - p * d);
    }
    if v / d == p {
      assert v == (v / d) * d + v % d;
    }
  }

  /** v and c's start first differ below n's slot bits and above c's own bits. */
  lemma PartBit(n: Node, s: nat, c: Node, v: U64)
    requires n.Normal? && LeafBits < n.bit
    requires Fits(n, s, c) && Contains(n, v) && Slot(n, v) == s && !Contains(c, v)
    ensures Bit(c) < BitWidth(Xor(v, Start(c))) <= n.bit - BitLen
  {
    SlotShr(n, v);
    XorWidth(v, Start(c), n.bit - BitLen);
    StartShr(c);
    XorWidth(v, Start(c), Bit(c));
  }

  /** The middle level lies strictly between c and n, and v and c's start part there. */
  lemma SplitLevel(n: Node, s: nat, c: Node, v: U64)
    requires n.Normal? && LeafBits < n.bit <= 64 && n.bit % BitLen == 0
    requires Fits(n, s, c) && LeafBits <= Bit(c) && Bit(c) % BitLen == 0
    requires Contains(n, v) && Slot(n, v) == s && !Contains(c, v)
    ensures var b := SplitBit(v, Start(c));
            && LeafBits < b && b % BitLen == 0 && b + BitLen <= n.bit && Bit(c) + BitLen <= b
            && Shr(v, b) == Shr(Start(c), b) && Shr(v, b - BitLen) != Shr(Start(c), b - BitLen)
  {
    var u := Start(c);
    PartBit(n, s, c, v);
    var t := BitWidth(Xor(v, u));
    CeilLevel(t, Bit(c), n.bit);
    var b := SplitBit(v, u);
    assert b == (t + 4 - 1) / 4 * 4;
    XorWidth(v, u, b);
    XorWidth(v, u, b - BitLen);
  }

  /** The middle node fits the slot of n that v and c's start are routed to. */
  lemma MiddleFits(n: Node, s: nat, v: U64, b: nat)
    requires n.Normal? && LeafBits < b && b % BitLen == 0 && b + BitLen <= n.bit <= 64
    requires Shr(v, n.bit - BitLen) == 16 * n.prefix + s
    ensures Fits(n, s, MakeNormal(v, b))
  {
    StartRoute(v, b, n.bit - BitLen);
  }

  /** A node whose start agrees with v above b fits the middle node's slot for its start. */
  lemma BelowFits(m: Node, c: Node, v: U64)
    requires m.Normal? && LeafBits < m.bit && m.prefix == Shr(v, m.bit)
    requires Bit(c) + BitLen <= m.bit && Shr(v, m.bit) == Shr(Start(c), m.bit)
    ensures Fits(m, Slot(m, Start(c)), c)
  {
    ShrSplit(Start(c), m.bit);
  }

  /** Keys that part just below the middle's bit take different slots. */
  lemma SlotsDiffer(m: Node, u: nat, v: nat)
    requires m.Normal? && LeafBits < m.bit
    requires Shr(v, m.bit) == Shr(u, m.bit) && Shr(v, m.bit - BitLen) != Shr(u, m.bit - BitLen)
    ensures Slot(m, u) != Slot(m, v)
  {
    ShrSplit(v, m.bit);
    ShrSplit(u, m.bit);
  }

  /**
   * The plan of s_split_at for a key v routed to slot s of n whose node c
   * there does not cover v: the middle node at SplitBit(v, start of c) is a
   * valid normal node between the two, it fits slot s of n, c fits the
   * middle's slot for c's start, and the fresh leaf for v fits another slot.
   */
  lemma SplitPlan(n: Node, s: nat, c: Node, v: U64)
    requires n.Normal? && LeafBits < n.bit <= 64 && n.bit % BitLen == 0
    requires Fits(n, s, c) && LeafBits <= Bit(c) && Bit(c) % BitLen == 0
    requires Contains(n, v) && Slot(n, v) == s && !Contains(c, v)
    ensures var b := SplitBit(v, Start(c));
            LeafBits < b && b % BitLen == 0 && b + BitLen <= n.bit && Bit(c) + BitLen <= b
    ensures var m := MakeNormal(v, SplitBit(v, Start(c)));
            && Fits(n, s, m)
            && Fits(m, Slot(m, Start(c)), c)
            && Fits(m, Slot(m, v), MakeLeaf(v))
            && Slot(m, Start(c)) != Slot(m, v)
  {
    SplitLevel(n, s, c, v);
    var b := SplitBit(v, Start(c));
    var m := MakeNormal(v, b);
    SlotShr(n, v);
    MiddleFits(n, s, v, b);
    BelowFits(m, c, v);
    LeafFits(m, v);
    SlotsDiffer(m, Start(c), v);
  }

  /** A rewired node routes every key as before. */
  lemma SlotSame(before: seq<Node>, after: seq<Node>, q: nat, s: nat, w: nat)
    requires Wf(before) && Wf(after) && Rewired(before, after, q, s)
    ensures SlotAt(after, q, w) == SlotAt(before, q, w)
  {
    assert after[q].bit == before[q].bit;
  }

  /** Away from slot s of q, a rewiring changes no key's membership. */
  lemma OffPath(before: seq<Node>, after: seq<Node>, q: nat, s: nat, w: U64)
    requires Wf(before) && Wf(after) && Rewired(before, after, q, s)
    requires !(Visits(before, 0, w, q) && SlotAt(before, q, w) == s)
    ensures Member(after, w) == Member(before, w)
  {
    SlotFrame(before, after, q, s, 0, w);
    RootContains(before, w);
    EndFacts(before, 0, w);
  }

  /** Through slot s of q, membership is decided from q on, before and after. */
  lemma OnPath(before: seq<Node>, after: seq<Node>, q: nat, s: nat, w: U64)
    requires Wf(before) && Wf(after) && Rewired(before, after, q, s)
    requires Visits(before, 0, w, q) && SlotAt(before, q, w) == s
    ensures SlotAt(after, q, w) == s
    ensures Member(after, w) == Hit(after, Descend(after, q, w), w)
    ensures Member(before, w) == Hit(before, Descend(before, q, w), w)
  {
    SlotFrame(before, after, q, s, 0, w);
  }

  /** The arena after s_try_insert puts a fresh leaf for v in the empty slot of q. */
  function WithLeaf(nodes: seq<Node>, q: nat, v: U64): seq<Node>
    requires Wf(nodes) && q < |nodes| && nodes[q].Normal?
  {
    var n := nodes[q];
    nodes[q := n.(children := n.children[SlotAt(nodes, q, v) := Some(|nodes|)])] + [MakeLeaf(v)]
  }

  /** A fresh leaf in the empty slot v is routed to adds v and nothing else. */
  lemma AddLeafEffect(nodes: seq<Node>, q: nat, v: U64)
    requires Wf(nodes) && q < |nodes| && nodes[q].Normal? && Contains(nodes[q], v)
    requires Visits(nodes, 0, v, q) && ChildAt(nodes, q, v).None?
    ensures Wf(WithLeaf(nodes, q, v))
    ensures forall w: U64 :: Member(WithLeaf(nodes, q, v), w) == (Member(nodes, w) || w == v)
  {
    var after := WithLeaf(nodes, q, v);
    var s := SlotAt(nodes, q, v);
    var k := |nodes|;
    assert NodeWf(nodes, q);
    assert Rewired(nodes, after, q, s);
    LeafFits(nodes[q], v);
    WfRewired(nodes, after, q, s);
    forall w: U64
      ensures Member(after, w) == (Member(nodes, w) || w == v)
    {
      if Visits(nodes, 0, w, q) && SlotAt(nodes, q, w) == s {
        OnPath(nodes, after, q, s, w);
        assert after[k] == MakeLeaf(v);
        if Contains(after[k], w) && Offset(w) == Offset(v) {
          LeafKey(after[k], v, w);
        }
      } else {
        OffPath(nodes, after, q, s, w);
      }
    }
  }

  /** s_try_insert calls s_split_at: the node in v's slot of q does not cover v. */
  ghost predicate SplitPre(nodes: seq<Node>, q: nat, v: U64) {
    && Wf(nodes) && q < |nodes| && nodes[q].Normal? && Contains(nodes[q], v)
    && ChildAt(nodes, q, v).Some? && ChildAt(nodes, q, v).value < |nodes|
    && !Contains(nodes[ChildAt(nodes, q, v).value], v)
  }

  /** The level plan holds for the node s_split_at moves. */
  lemma SplitReady(nodes: seq<Node>, q: nat, v: U64)
    requires SplitPre(nodes, q, v)
    ensures var c := nodes[ChildAt(nodes, q, v).value];
            SplitPlanPre(nodes[q], SlotAt(nodes, q, v), c, v)
  {
    assert NodeWf(nodes, q);
    assert NodeWf(nodes, ChildAt(nodes, q, v).value);
  }

  ghost predicate SplitPlanPre(n: Node, s: nat, c: Node, v: U64) {
    && n.Normal? && LeafBits < n.bit <= 64 && n.bit % BitLen == 0
    && Fits(n, s, c) && LeafBits <= Bit(c) && Bit(c) % BitLen == 0
    && Contains(n, v) && Slot(n, v) == s && !Contains(c, v)
  }

  /** The middle node of s_split_at: c at the slot of its start, a fresh leaf for v at v's slot. */
  function Middle(v: U64, u: nat, c: nat, leaf: nat): (m: Node)
    requires LeafBits < SplitBit(v, u) <= 64 && SplitBit(v, u) % BitLen == 0
    ensures m.Normal? && SameHeader(m, MakeNormal(v, SplitBit(v, u))) && |m.children| == 16
  {
    var m0 := MakeNormal(v, SplitBit(v, u));
    var m1 := m0.(children := m0.children[Slot(m0, u) := Some(c)]);
    m1.(children := m1.children[Slot(m1, v) := Some(leaf)])
  }

  /** The arena after s_split_at below slot SlotAt(nodes, q, v) of q. */
  function WithSplit(nodes: seq<Node>, q: nat, v: U64): seq<Node>
    requires SplitPre(nodes, q, v)
  {
    var n := nodes[q];
    var s := SlotAt(nodes, q, v);
    var c := n.children[s].value;
    SplitReady(nodes, q, v);
    SplitLevel(n, s, nodes[c], v);
    nodes[q := n.(children := n.children[s := Some(|nodes|)])]
      + [Middle(v, Start(nodes[c]), c, |nodes| + 1), MakeLeaf(v)]
  }

  /** The cells of the split arena: q points at the middle node, appended with the fresh leaf. */
  lemma SplitShape(nodes: seq<Node>, q: nat, v: U64)
    requires SplitPre(nodes, q, v)
    ensures var after := WithSplit(nodes, q, v);
            var s := SlotAt(nodes, q, v);
            var n := nodes[q];
            var c := n.children[s].value;
            && c != q && |after| == |nodes| + 2
            && after[q] == n.(children := n.children[s := Some(|nodes|)])
            && after[c] == nodes[c]
            && after[|nodes| + 1] == MakeLeaf(v)
            && LeafBits < SplitBit(v, Start(nodes[c])) <= 64 && SplitBit(v, Start(nodes[c])) % BitLen == 0
            && after[|nodes|] == Middle(v, Start(nodes[c]), c, |nodes| + 1)
  {
    SplitReady(nodes, q, v);
    SplitLevel(nodes[q], SlotAt(nodes, q, v), nodes[ChildAt(nodes, q, v).value], v);
  }

  /** The middle node is a valid normal node whose two children fit their slots. */
  lemma MiddleOk(n: Node, s: nat, cn: Node, c: nat, x: nat, v: U64)
    requires SplitPlanPre(n, s, cn, v)
    ensures LeafBits < SplitBit(v, Start(cn)) <= 64 && SplitBit(v, Start(cn)) % BitLen == 0
    ensures var m := Middle(v, Start(cn), c, x);
            var a := Slot(m, Start(cn));
            var b := Slot(m, v);
            && HeaderOk(m.prefix, m.bit) && LeafBits < m.bit <= 64 && Fits(n, s, m)
            && a != b && m.children == seq(16, _ => None)[a := Some(c)][b := Some(x)]
            && Fits(m, a, cn) && Fits(m, b, MakeLeaf(v))
  {
    SplitPlan(n, s, cn, v);
  }

  /** A normal node with exactly two children, each fitting its slot, is well formed. */
  lemma TwoChildren(nodes: seq<Node>, i: nat, a: nat, b: nat, c: nat, x: nat)
    requires i < |nodes| && nodes[i].Normal? && HeaderOk(nodes[i].prefix, nodes[i].bit)
    requires LeafBits < nodes[i].bit <= 64 && a < 16 && b < 16 && c < |nodes| && x < |nodes|
    requires nodes[i].children == seq(16, _ => None)[a := Some(c)][b := Some(x)]
    requires Fits(nodes[i], a, nodes[c]) && Fits(nodes[i], b, nodes[x])
    ensures NodeWf(nodes, i)
  {
    var ch := nodes[i].children;
    forall t | 0 <= t < 16 && ch[t].Some?
      ensures ch[t].value < |nodes| && Fits(nodes[i], t, nodes[ch[t].value])
    {
      assert t == a || t == b;
    }
  }

  /** s_split_at keeps the trie well formed. */
  lemma SplitWf(nodes: seq<Node>, q: nat, v: U64)
    requires SplitPre(nodes, q, v)
    ensures Rewired(nodes, WithSplit(nodes, q, v), q, SlotAt(nodes, q, v))
    ensures Wf(WithSplit(nodes, q, v))
  {
    var after := WithSplit(nodes, q, v);
    var s := SlotAt(nodes, q, v);
    var c := nodes[q].children[s].value;
    var mid := |nodes|;
    SplitReady(nodes, q, v);
    MiddleOk(nodes[q], s, nodes[c], c, mid + 1, v);
    var m := Middle(v, Start(nodes[c]), c, mid + 1);
    var n := nodes[q];
    SplitShape(nodes, q, v);
    TwoChildren(after, mid, Slot(m, Start(nodes[c])), Slot(m, v), c, mid + 1);
    assert NodeWf(after, mid + 1);
    assert after[q].children[s] == Some(mid) && SameHeader(after[q], n);
    FitsHeader(n, after[q], s, m);
    assert Rewired(nodes, after, q, s);
    WfRewired(nodes, after, q, s);
  }

  /**
   * Through the split slot: keys of the moved node are reached through the
   * middle node as before, v through the fresh leaf, and nothing else.
   */
  lemma SplitOnPath(nodes: seq<Node>, q: nat, v: U64, w: U64)
    requires SplitPre(nodes, q, v) && Wf(WithSplit(nodes, q, v))
    requires Rewired(nodes, WithSplit(nodes, q, v), q, SlotAt(nodes, q, v))
    requires SlotAt(nodes, q, w) == SlotAt(nodes, q, v)
    ensures Hit(WithSplit(nodes, q, v), Descend(WithSplit(nodes, q, v), q, w), w)
            == (Hit(nodes, Descend(nodes, q, w), w) || w == v)
  {
    var after := WithSplit(nodes, q, v);
    var s := SlotAt(nodes, q, v);
    var c := nodes[q].children[s].value;
    var mid := |nodes|;
    SplitNodes(nodes, q, v);
    if Contains(nodes[c], w) {
      FitsRoute(after[mid], Slot(after[mid], Start(nodes[c])), nodes[c], w);
      KeptThrough(nodes, after, q, s, c, mid, w);
    } else {
      FreshThrough(nodes, after, q, s, c, mid, w, v);
    }
  }

  /** The two nodes s_split_at appends: the middle node, with the moved node
    * and the new leaf as its only children, and the leaf holding v alone. */
  lemma SplitNodes(nodes: seq<Node>, q: nat, v: U64)
    requires SplitPre(nodes, q, v)
    ensures |WithSplit(nodes, q, v)| == |nodes| + 2
    ensures WithSplit(nodes, q, v)[|nodes|].Normal? && LeafBits < WithSplit(nodes, q, v)[|nodes|].bit
    ensures var after := WithSplit(nodes, q, v);
            var s := SlotAt(nodes, q, v);
            var c := nodes[q].children[s].value;
            var mid := |nodes|;
            var m := after[mid];
            var a := Slot(m, Start(nodes[c]));
            var b := Slot(m, v);
            && c < |nodes| && mid + 1 < |after| && after[c] == nodes[c]
            && after[q].children[s] == Some(mid)
            && Contains(m, v) && Fits(m, a, nodes[c])
            && after[mid + 1].Leaf? && Contains(after[mid + 1], v) && after[mid + 1].bits == {Offset(v)}
            && a != b && |m.children| == 16 && m.children[a] == Some(c) && m.children[b] == Some(mid + 1)
            && (forall t | 0 <= t < 16 && t != a && t != b :: m.children[t].None?)
  {
    var after := WithSplit(nodes, q, v);
    var s := SlotAt(nodes, q, v);
    var c := nodes[q].children[s].value;
    var mid := |nodes|;
    SplitReady(nodes, q, v);
    MiddleOk(nodes[q], s, nodes[c], c, mid + 1, v);
    SplitShape(nodes, q, v);
    var m := Middle(v, Start(nodes[c]), c, mid + 1);
    assert after[mid] == m;
    assert after[mid + 1] == MakeLeaf(v);
    ChildrenOf(m, Slot(m, Start(nodes[c])), Slot(m, v), c, mid + 1);
  }

  /** The children of a node with exactly two set slots, one by one. */
  lemma ChildrenOf(m: Node, a: nat, b: nat, c: nat, x: nat)
    requires m.Normal? && a < 16 && b < 16 && a != b
    requires m.children == seq(16, _ => None)[a := Some(c)][b := Some(x)]
    ensures |m.children| == 16 && m.children[a] == Some(c) && m.children[b] == Some(x)
    ensures forall t | 0 <= t < 16 && t != a && t != b :: m.children[t].None?
  {
  }

  /** A key of the moved node is reached through the middle node exactly as before. */
  lemma KeptThrough(nodes: seq<Node>, after: seq<Node>, q: nat, s: nat, c: nat, mid: nat, w: U64)
    requires Wf(nodes) && Wf(after) && Rewired(nodes, after, q, s)
    requires SlotAt(nodes, q, w) == s && nodes[q].children[s] == Some(c) && after[q].children[s] == Some(mid)
    requires c < |nodes| <= mid < |after| && after[mid].Normal? && after[c] == nodes[c]
    requires Contains(after[mid], w) && ChildAt(after, mid, w) == Some(c) && Contains(nodes[c], w)
    ensures Hit(after, Descend(after, q, w), w) == Hit(nodes, Descend(nodes, q, w), w)
  {
    SlotSame(nodes, after, q, s, w);
    assert Descend(after, q, w) == Descend(after, mid, w);
    if nodes[c].Normal? {
      assert NodeWf(nodes, q);
      assert nodes[c].bit < nodes[q].bit;
      VisitsBit(nodes, c, w, q);
      SlotFrame(nodes, after, q, s, c, w);
      EndFacts(nodes, c, w);
      var e := Descend(nodes, c, w);
      assert Descend(after, c, w) == e;
      assert Descend(after, mid, w) == e;
      assert Descend(nodes, q, w) == e;
      assert e.AtLeaf? ==> after[e.leaf] == nodes[e.leaf];
    }
  }

  /** A key outside the moved node is reached only if it is v, through the fresh leaf. */
  lemma FreshThrough(nodes: seq<Node>, after: seq<Node>, q: nat, s: nat, c: nat, mid: nat, w: U64, v: U64)
    requires Wf(nodes) && Wf(after) && Rewired(nodes, after, q, s)
    requires SlotAt(nodes, q, w) == s && nodes[q].children[s] == Some(c) && after[q].children[s] == Some(mid)
    requires c < |nodes| <= mid && mid + 1 < |after| && after[c] == nodes[c] && !Contains(nodes[c], w)
    requires after[mid].Normal? && LeafBits < after[mid].bit && Contains(after[mid], v)
    requires after[mid + 1].Leaf? && Contains(after[mid + 1], v) && after[mid + 1].bits == {Offset(v)}
    requires var m := after[mid];
             var a := Slot(m, Start(nodes[c]));
             var b := Slot(m, v);
             && a != b && |m.children| == 16 && m.children[a] == Some(c) && m.children[b] == Some(mid + 1)
             && forall t | 0 <= t < 16 && t != a && t != b :: m.children[t].None?
    ensures Hit(after, Descend(after, q, w), w) == (Hit(nodes, Descend(nodes, q, w), w) || w == v)
  {
    SlotSame(nodes, after, q, s, w);
    assert Descend(nodes, q, w) == Mismatch(q, c);
    FreshAfter(after, q, mid, c, Slot(after[mid], Start(nodes[c])), w, v);
  }

  /** After the split, a key outside the moved node reaches a set bit only if it is v. */
  lemma FreshAfter(after: seq<Node>, q: nat, mid: nat, c: nat, a: nat, w: U64, v: U64)
    requires Wf(after) && q < |after| && after[q].Normal? && ChildAt(after, q, w) == Some(mid)
    requires c < |after| && mid + 1 < |after| && !Contains(after[c], w)
    requires after[mid].Normal? && LeafBits < after[mid].bit && Contains(after[mid], v)
    requires after[mid + 1].Leaf? && Contains(after[mid + 1], v) && after[mid + 1].bits == {Offset(v)}
    requires var m := after[mid];
             var b := Slot(m, v);
             && a < 16 && a != b && |m.children| == 16 && m.children[a] == Some(c) && m.children[b] == Some(mid + 1)
             && forall t | 0 <= t < 16 && t != a && t != b :: m.children[t].None?
    ensures Hit(after, Descend(after, q, w), w) == (w == v)
  {
    var m := after[mid];
    var x := after[mid + 1];
    if !Contains(m, w) {
      assert Descend(after, q, w) == Mismatch(q, mid);
    } else {
      assert Descend(after, q, w) == Descend(after, mid, w);
      var t := SlotAt(after, mid, w);
      if t == Slot(m, v) {
        if Contains(x, w) {
          assert Descend(after, mid, w) == AtLeaf(mid, mid + 1);
          if Offset(w) == Offset(v) {
            LeafKey(x, v, w);
          }
        } else {
          assert Descend(after, mid, w) == Mismatch(mid, mid + 1);
        }
      } else if t == a {
        assert Descend(after, mid, w) == Mismatch(mid, c);
      } else {
        assert Descend(after, mid, w) == Vacant(mid);
      }
    }
  }

  /** s_split_at adds v and nothing else. */
  lemma SplitEffect(nodes: seq<Node>, q: nat, v: U64)
    requires SplitPre(nodes, q, v) && Visits(nodes, 0, v, q)
    ensures Wf(WithSplit(nodes, q, v))
    ensures forall w: U64 :: Member(WithSplit(nodes, q, v), w) == (Member(nodes, w) || w == v)
  {
    var after := WithSplit(nodes, q, v);
    var s := SlotAt(nodes, q, v);
    SplitWf(nodes, q, v);
    forall w: U64
      ensures Member(after, w) == (Member(nodes, w) || w == v)
    {
      if Visits(nodes, 0, w, q) && SlotAt(nodes, q, w) == s {
        OnPath(nodes, after, q, s, w);
        SplitOnPath(nodes, q, v, w);
      } else {
        OffPath(nodes, after, q, s, w);
      }
    }
  }

  /** Only the bits of leaf l change. */
  ghost predicate LeafUpdated(before: seq<Node>, after: seq<Node>, l: nat) {
    && l < |before| == |after|
    && before[l].Leaf? && after[l].Leaf? && after[l].prefix == before[l].prefix && LeafOk(after[l])
    && (forall i | 0 <= i < |before| && i != l :: after[i] == before[i])
  }

  lemma WfLeafUpdated(before: seq<Node>, after: seq<Node>, l: nat)
    requires Wf(before) && LeafUpdated(before, after, l)
    ensures Wf(after)
  {
    forall i | 0 <= i < |after|
      ensures NodeWf(after, i)
    {
      assert NodeWf(before, i);
      if i != l && before[i].Normal? {
        forall t | 0 <= t < 16 && after[i].children[t].Some?
          ensures after[i].children[t].value < |after| && Fits(after[i], t, after[after[i].children[t].value])
        {
          var c := before[i].children[t].value;
          assert SameHeader(before[c], after[c]);
        }
      }
    }
  }

  /** Leaf bits are not read on the way down. */
  lemma {:induction false} LeafFrame(before: seq<Node>, after: seq<Node>, l: nat, p: nat, w: nat)
    requires Wf(before) && Wf(after) && LeafUpdated(before, after, l)
    requires p < |before| && before[p].Normal?
    ensures after[p].Normal? && Descend(after, p, w) == Descend(before, p, w)
    decreases before[p].bit
  {
    assert NodeWf(before, p);
    var ch := before[p].children[Slot(before[p], w)];
    if ch.Some? {
      assert SameHeader(before[ch.value], after[ch.value]);
      if Contains(before[ch.value], w) && before[ch.value].Normal? {
        LeafFrame(before, after, l, ch.value, w);
      }
    }
  }

  /**
   * Changing only v's bit in the leaf v reaches (try_set, try_unset)
   * changes only v's membership, to whether the bit is now set.
   */
  lemma LeafEffect(before: seq<Node>, after: seq<Node>, l: nat, v: U64)
    requires Wf(before) && LeafUpdated(before, after, l)
    requires Descend(before, 0, v).AtLeaf? && Descend(before, 0, v).leaf == l
    requires after[l].bits - {Offset(v)} == before[l].bits - {Offset(v)}
    ensures Wf(after)
    ensures Member(after, v) == (Offset(v) in after[l].bits)
    ensures forall w: U64 | w != v :: Member(after, w) == Member(before, w)
  {
    WfLeafUpdated(before, after, l);
    RootContains(before, v);
    EndFacts(before, 0, v);
    LeafFrame(before, after, l, 0, v);
    forall w: U64 | w != v
      ensures Member(after, w) == Member(before, w)
    {
      LeafOther(before, after, l, v, w);
    }
  }

  /** Another key ends where it did and reads the same bit. */
  lemma LeafOther(before: seq<Node>, after: seq<Node>, l: nat, v: U64, w: U64)
    requires Wf(before) && Wf(after) && LeafUpdated(before, after, l) && Contains(before[l], v)
    requires after[l].bits - {Offset(v)} == before[l].bits - {Offset(v)} && w != v
    ensures Member(after, w) == Member(before, w)
  {
    RootContains(before, w);
    EndFacts(before, 0, w);
    LeafFrame(before, after, l, 0, w);
    var e := Descend(before, 0, w);
    assert Descend(after, 0, w) == e;
    if e.AtLeaf? {
      if e.leaf == l {
        if Offset(w) == Offset(v) {
          LeafKey(before[l], v, w);
        }
        assert Offset(w) in after[l].bits <==> Offset(w) in after[l].bits - {Offset(v)};
        assert Offset(w) in before[l].bits <==> Offset(w) in before[l].bits - {Offset(v)};
      } else {
        assert after[e.leaf] == before[e.leaf];
      }
    }
  }

  /** Keys with the same leaf prefix agree on every shift of 12 bits or more. */
  lemma ShrAbove(v: nat, w: nat, k: nat)
    requires Shr(v, LeafBits) == Shr(w, LeafBits) && LeafBits <= k
    ensures Shr(v, k) == Shr(w, k)
  {
    ShrShr(v, LeafBits, k - LeafBits);
    ShrShr(w, LeafBits, k - LeafBits);
  }

  /** Keys with the same leaf prefix take the same way down. */
  lemma {:induction false} SameRoute(nodes: seq<Node>, p: nat, v: nat, w: nat)
    requires Wf(nodes) && p < |nodes| && nodes[p].Normal? && Shr(v, LeafBits) == Shr(w, LeafBits)
    ensures Descend(nodes, p, v) == Descend(nodes, p, w)
    decreases nodes[p].bit
  {
    assert NodeWf(nodes, p);
    ShrAbove(v, w, nodes[p].bit - BitLen);
    var ch := nodes[p].children[Slot(nodes[p], v)];
    if ch.Some? {
      assert NodeWf(nodes, ch.value);
      ShrAbove(v, w, Bit(nodes[ch.value]));
      if Contains(nodes[ch.value], v) && nodes[ch.value].Normal? {
        SameRoute(nodes, ch.value, v, w);
      }
    }
  }

  /** set::iterator: the leaf it points into (none for iterator{}) and the offset in it. */
  datatype Iter = Iter(node: Option<nat>, offset: nat)

  /** set: the trie rooted at m_root, as an arena of nodes. */
  class IntTrie {
    var nodes: seq<Node>

    ghost predicate Valid()
      reads this
    {
      Wf(nodes)
    }

    /** set() = default: the root alone, so no key is in the set. */
    constructor ()
      ensures Valid() && forall v: U64 :: !Member(nodes, v)
      ensures forall v: U64 :: Descend(nodes, 0, v) == Vacant(0)
    {
      nodes := [Normal(0, 64, seq(16, _ => None))];
    }

    /** The do-while shared by s_try_insert, s_try_remove and s_try_locate:
      * from the root, follow v's slot until it is empty, holds a node not
      * covering v, or holds the leaf covering v. */
    method Seek(v: U64) returns (e: End)
      requires Valid()
      ensures e == Descend(nodes, 0, v)
    {
      var p := 0;
      while true
        invariant p < |nodes| && nodes[p].Normal?
        invariant Descend(nodes, p, v) == Descend(nodes, 0, v)
        decreases nodes[p].bit
      {
        assert NodeWf(nodes, p);
        var child := nodes[p].children[Slot(nodes[p], v)];
        if child.None? {
          return Vacant(p);
        }
        var c := child.value;
        if !Contains(nodes[c], v) {
          return Mismatch(p, c);
        }
        if nodes[c].Leaf? {
          return AtLeaf(p, c);
        }
        p := c;
      }
    }

    /** find (s_try_locate): an iterator to v exactly when v is in the set. */
    method Find(v: U64) returns (it: Iter)
      requires Valid()
      ensures it.node.Some? == Member(nodes, v)
      ensures it.node.Some? ==> it.node.value < |nodes| && Deref(nodes[it.node.value], it.offset) == v
    {
      var e := Seek(v);
      RootContains(nodes, v);
      EndFacts(nodes, 0, v);
      if e.AtLeaf? && Test(nodes[e.leaf], v) {
        DerefKey(nodes[e.leaf], v);
        it := Iter(Some(e.leaf), Offset(v));
      } else {
        it := Iter(None, 0);
      }
    }

    /** erase (s_try_remove): v leaves the set, whether it was there is
      * reported, no other key changes and no node is reclaimed. */
    method Erase(v: U64) returns (removed: bool)
      requires Valid()
      modifies this
      ensures Valid() && |nodes| == |old(nodes)|
      ensures removed == old(Member(nodes, v)) && !Member(nodes, v)
      ensures forall w: U64 | w != v :: Member(nodes, w) == old(Member(nodes, w))
    {
      var e := Seek(v);
      RootContains(nodes, v);
      EndFacts(nodes, 0, v);
      if e.AtLeaf? {
        ghost var before := nodes;
        assert NodeWf(nodes, e.leaf);
        var r := TryUnset(nodes[e.leaf], v);
        nodes := nodes[e.leaf := r.0];
        removed := r.1;
        LeafEffect(before, nodes, e.leaf, v);
      } else {
        removed := false;
      }
    }

    /** s_split_at: a middle node at SplitBit takes the place of the node in
      * v's slot of q, with that node and a fresh leaf for v below it; v
      * joins the set and no other key changes. */
    method SplitAt(q: nat, v: U64) returns (it: Iter)
      requires SplitPre(nodes, q, v) && Visits(nodes, 0, v, q)
      modifies this
      ensures nodes == WithSplit(old(nodes), q, v) && Valid()
      ensures forall w: U64 :: Member(nodes, w) == (old(Member(nodes, w)) || w == v)
      ensures it.node.Some? && it.node.value < |nodes| && Deref(nodes[it.node.value], it.offset) == v
    {
      var leaf := |nodes| + 1;
      SplitEffect(nodes, q, v);
      SplitShape(nodes, q, v);
      nodes := WithSplit(nodes, q, v);
      DerefKey(nodes[leaf], v);
      it := Iter(Some(leaf), Offset(v));
    }

    /** The null-slot case of s_try_insert: s_make_leaf in v's slot of q;
      * v joins the set and no other key changes. */
    method AddLeaf(q: nat, v: U64) returns (it: Iter)
      requires Valid() && q < |nodes| && nodes[q].Normal? && Contains(nodes[q], v)
      requires Visits(nodes, 0, v, q) && ChildAt(nodes, q, v).None?
      modifies this
      ensures nodes == WithLeaf(old(nodes), q, v) && Valid()
      ensures forall w: U64 :: Member(nodes, w) == (old(Member(nodes, w)) || w == v)
      ensures it.node.Some? && it.node.value < |nodes| && Deref(nodes[it.node.value], it.offset) == v
    {
      var leaf := |nodes|;
      AddLeafEffect(nodes, q, v);
      nodes := WithLeaf(nodes, q, v);
      DerefKey(nodes[leaf], v);
      it := Iter(Some(leaf), Offset(v));
    }

    /** leaf.try_set(v) on the leaf v reaches, in place. */
    method SetBit(l: nat, v: U64) returns (changed: bool)
      requires Valid() && Descend(nodes, 0, v).AtLeaf? && Descend(nodes, 0, v).leaf == l
      modifies this
      ensures Valid() && |nodes| == |old(nodes)| && l < |nodes| && nodes[l].Leaf? && Contains(nodes[l], v)
      ensures changed == !old(Member(nodes, v)) && Member(nodes, v)
      ensures forall w: U64 | w != v :: Member(nodes, w) == old(Member(nodes, w))
    {
      RootContains(nodes, v);
      EndFacts(nodes, 0, v);
      assert NodeWf(nodes, l);
      ghost var before := nodes;
      var r := TrySet(nodes[l], v);
      nodes := nodes[l := r.0];
      changed := r.1;
      LeafEffect(before, nodes, l, v);
    }

    /** insert (s_try_insert) with the leaf updated in place: v joins the
      * set, whether it is new is reported, and no other key changes. */
    method Insert(v: U64) returns (it: Iter, inserted: bool)
      requires Valid()
      modifies this
      ensures Valid()
      ensures inserted == !old(Member(nodes, v)) && Member(nodes, v)
      ensures forall w: U64 | w != v :: Member(nodes, w) == old(Member(nodes, w))
      ensures it.node.Some? && it.node.value < |nodes| && Deref(nodes[it.node.value], it.offset) == v
    {
      var e := Seek(v);
      RootContains(nodes, v);
      EndFacts(nodes, 0, v);
      match e
      case Vacant(p) =>
        it := AddLeaf(p, v);
        inserted := true;
      case Mismatch(p, _) =>
        it := SplitAt(p, v);
        inserted := true;
      case AtLeaf(_, l) =>
        inserted := SetBit(l, v);
        DerefKey(nodes[l], v);
        it := Iter(Some(l), Offset(v));
    }

    /** insert as written: on the leaf covering v, try_set runs on a copy of
      * the leaf, so the set is left as it was though an insertion is
      * reported, and the iterator returned refers to that local copy, which
      * is gone on return: it refers to no node of the trie. */
    method InsertAsWritten(v: U64) returns (it: Iter, inserted: bool)
      requires Valid()
      modifies this
      ensures Valid()
      ensures inserted == !old(Member(nodes, v))
      ensures Member(nodes, v) == (old(Member(nodes, v)) || !Descend(old(nodes), 0, v).AtLeaf?)
      ensures forall w: U64 | w != v :: Member(nodes, w) == old(Member(nodes, w))
      ensures Descend(nodes, 0, v).AtLeaf?
      ensures it.node.None? <==> Descend(old(nodes), 0, v).AtLeaf?
      ensures it.node.Some? ==> it.node.value < |nodes| && Deref(nodes[it.node.value], it.offset) == v
    {
      var e := Seek(v);
      RootContains(nodes, v);
      EndFacts(nodes, 0, v);
      match e
      case Vacant(p) =>
        it := AddLeaf(p, v);
        inserted := true;
      case Mismatch(p, _) =>
        it := SplitAt(p, v);
        inserted := true;
      case AtLeaf(_, l) =>
        assert NodeWf(nodes, l);
        var copy := TrySet(nodes[l], v);
        inserted := copy.1;
        it := Iter(None, Offset(v));
    }
  }

  /** correctness() in csrc/cpp/set/main.cpp: after inserting 1, 2, 4, 8 and
    * 4096, find(1) has a value; after erase(1) it has none. */
  method Correctness() returns (before: bool, after: bool)
    ensures before && !after
  {
    var trie := new IntTrie();
    var it, inserted := trie.Insert(1);
    it, inserted := trie.Insert(2);
    it, inserted := trie.Insert(4);
    it, inserted := trie.Insert(8);
    it, inserted := trie.Insert(4096);
    it := trie.Find(1);
    before := it.node.Some?;
    var removed := trie.Erase(1);
    it := trie.Find(1);
    after := it.node.Some?;
  }

  /** 1 and 2 share the leaf covering the keys below 4096. */
  lemma OneTwoShareLeaf()
    ensures Shr(1, LeafBits) == 0 && Shr(2, LeafBits) == 0
  {
    Pow2Values();
    ShrZero(1, LeafBits);
    ShrZero(2, LeafBits);
  }

  /** The same run with insert as written: insert(2) lands on the leaf that
    * insert(1) made and reports a new key, yet find(2) then misses it; the
    * two lines the program prints come out the same. The iterator insert(2)
    * returns refers to no node of the trie. */
  method CorrectnessAsWritten() returns (insertedTwo: bool, foundTwo: bool, itTwoLive: bool, before: bool, after: bool)
    ensures insertedTwo && !foundTwo && !itTwoLive
    ensures before && !after
  {
    var trie := new IntTrie();
    var it, inserted := trie.InsertAsWritten(1);
    assert !Member(trie.nodes, 2) && Member(trie.nodes, 1);
    OneTwoShareLeaf();
    SameRoute(trie.nodes, 0, 1, 2);
    assert Descend(trie.nodes, 0, 2).AtLeaf?;
    it, insertedTwo := trie.InsertAsWritten(2);
    itTwoLive := it.node.Some?;
    assert !Member(trie.nodes, 2) && Member(trie.nodes, 1);
    it := trie.Find(2);
    foundTwo := it.node.Some?;
    it, inserted := trie.InsertAsWritten(4);
    it, inserted := trie.InsertAsWritten(8);
    it, inserted := trie.InsertAsWritten(4096);
    it := trie.Find(1);
    before := it.node.Some?;
    var removed := trie.Erase(1);
    it := trie.Find(1);
    after := it.node.Some?;
  }
}
