/**
 * The 256-way compressed radix tree of csrc/include/set/str_set.h.
 *
 * Every node holds a prefix; a normal node also holds the has_value flag and
 * its children, indexed by the first character of the child's prefix; a
 * leaf stands for the key spelled by the prefixes on the way down to it and
 * its own. The nodes are owned through unique_ptr, so no node is shared and
 * a node is a value here: a `Tree`. The set of s_try_locate answers is
 * described by `Locate`, which returns the key of the node the lookup stops
 * at (a node is identified by the key its path spells).
 */
module StrSet {
  import opened Wrappers

  /** leaf_node and normal_node; a leaf's own has_value flag is never set or read. */
  datatype Tree =
    | Leaf(prefix: string)
    | Normal(prefix: string, hasValue: bool, children: map<char, Tree>)

  /** base_node::match: the length of the longest common prefix. */
  function Common(a: string, b: string): (r: nat)
    ensures r <= |a| && r <= |b| && a[..r] == b[..r]
    ensures r < |a| && r < |b| ==> a[r] != b[r]
  {
    if a == [] || b == [] || a[0] != b[0] then 0
    else
      var k := Common(a[1..], b[1..]);
      assert a[..k + 1] == [a[0]] + a[1..][..k];
      assert b[..k + 1] == [b[0]] + b[1..][..k];
      1 + k
  }

  /** Any length with the two properties of Common is Common. */
  lemma CommonUnique(a: string, b: string, r: nat)
    requires r <= |a| && r <= |b| && a[..r] == b[..r]
    requires r < |a| && r < |b| ==> a[r] != b[r]
    ensures r == Common(a, b)
  {
  }

  /** The whole of a is matched exactly when a is a prefix of b. */
  lemma CommonFull(a: string, b: string)
    ensures Common(a, b) == |a| <==> a <= b
  {
  }

  /** The loop of base_node::match. */
  method Match(prefix: string, v: string) returns (r: nat)
    ensures r == Common(prefix, v)
  {
    var len := if |v| < |prefix| then |v| else |prefix|;
    var i := 0;
    while i < len
      invariant i <= len && prefix[..i] == v[..i]
    {
      if v[i] != prefix[i] {
        CommonUnique(prefix, v, i);
        return i;
      }
      assert prefix[..i + 1] == prefix[..i] + [prefix[i]];
      assert v[..i + 1] == v[..i] + [v[i]];
      i := i + 1;
    }
    CommonUnique(prefix, v, len);
    return len;
  }

  /** base_node::split: the first n characters, and the node left with the rest. */
  function Split(node: Tree, n: nat): (r: (string, Tree))
    requires n <= |node.prefix|
    ensures |r.0| == n && r.0 + r.1.prefix == node.prefix
    ensures r.1 == node.(prefix := r.1.prefix)
  {
    assert node.prefix == node.prefix[..n] + node.prefix[n..];
    (node.prefix[..n], node.(prefix := node.prefix[n..]))
  }

  /** base_node::front. */
  function Front(node: Tree): char
    requires node.prefix != []
  {
    node.prefix[0]
  }

  /** Every child hangs under the first character of its prefix, which is not empty. */
  ghost predicate Wf(t: Tree) {
    t.Normal? ==>
      forall c | c in t.children ::
        t.children[c].prefix != [] && t.children[c].prefix[0] == c && Wf(t.children[c])
  }

  /** s_try_locate from the normal node t with the rest w of the key: the key,
    * relative to t, of the node the lookup stops at, or None for nullptr. */
  function Locate(t: Tree, w: string): (r: Option<string>)
    requires t.Normal?
    ensures r.Some? ==> r.value <= w
    decreases t, 0
  {
    if w == [] then (if t.hasValue then Some([]) else None)
    else if w[0] !in t.children then None
    else Via(t.children[w[0]], w)
  }

  /** One round of the do-while at the child c in the slot of w: nullptr
    * unless c's prefix is matched in full; a leaf is then the answer,
    * whatever follows in w, and a normal node continues with the rest. */
  function Via(c: Tree, w: string): (r: Option<string>)
    ensures r.Some? ==> r.value <= w
    decreases c, 1
  {
    if Common(c.prefix, w) != |c.prefix| then None
    else if c.Leaf? then Some(c.prefix)
    else
      assert w == c.prefix + w[|c.prefix|..];
      Prepend(c.prefix, Locate(c, w[|c.prefix|..]))
  }

  /** A key relative to a child, made relative to its parent. */
  function Prepend(a: string, k: Option<string>): (r: Option<string>)
    ensures r.Some? == k.Some? && (k.Some? ==> r.value == a + k.value)
  {
    match k
    case None => None
    case Some(x) => Some(a + x)
  }

  /** s_split_at below the child c, which matches w only up to l < |c.prefix|:
    * a normal node with the common part, c shortened under its first
    * remaining character, and either has_value (nothing of w remains) or a
    * new leaf with the rest of w. */
  function Middle(c: Tree, l: nat, w: string): (m: Tree)
    requires l < |c.prefix| && l <= |w| && c.prefix[..l] == w[..l]
    requires l < |w| ==> c.prefix[l] != w[l]
  {
    var parts := Split(c, l);
    var m := Normal(parts.0, l == |w|, map[Front(parts.1) := parts.1]);
    if l == |w| then m else m.(children := m.children[w[l] := Leaf(w[l..])])
  }

  /** s_try_insert from the normal node t with the rest w of the key: the new
    * node, `inserted`, and whether the node the returned iterator points to
    * is a leaf. */
  function TryInsert(t: Tree, w: string): (r: (Tree, bool, bool))
    requires t.Normal?
    ensures r.0.Normal? && r.0.prefix == t.prefix
    decreases t
  {
    if w == [] then (t.(hasValue := true), !t.hasValue, false)
    else if w[0] !in t.children then (t.(children := t.children[w[0] := Leaf(w)]), true, true)
    else
      var c := t.children[w[0]];
      var l := Common(c.prefix, w);
      if l != |c.prefix| then (t.(children := t.children[w[0] := Middle(c, l, w)]), true, l < |w|)
      else if c.Leaf? then (t, false, true)
      else
        var r := TryInsert(c, w[l..]);
        (t.(children := t.children[w[0] := r.0]), r.1, r.2)
  }

  /** s_try_remove from the normal node t with the rest w of the key: the new
    * node and whether something was removed. A leaf the lookup stops at is
    * unhooked; nodes are never merged. */
  function TryRemove(t: Tree, w: string): (r: (Tree, bool))
    requires t.Normal?
    ensures r.0.Normal? && r.0.prefix == t.prefix
    decreases t
  {
    if w == [] then (t.(hasValue := false), t.hasValue)
    else if w[0] !in t.children then (t, false)
    else
      var c := t.children[w[0]];
      if Common(c.prefix, w) != |c.prefix| then (t, false)
      else if c.Leaf? then (t.(children := t.children - {w[0]}), true)
      else
        var r := TryRemove(c, w[|c.prefix|..]);
        (t.(children := t.children[w[0] := r.0]), r.1)
  }

  /** Two keys that agree on their first l characters agree, or extend one
    * another, exactly when their rests after l do. */
  lemma Rest(u: string, w: string, l: nat)
    requires l <= |u| && l <= |w| && u[..l] == w[..l]
    ensures u[l..] == w[l..] <==> u == w
    ensures w[l..] <= u[l..] <==> w <= u
  {
    assert u == u[..l] + u[l..];
    assert w == w[..l] + w[l..];
    if w <= u {
      assert w[l..] == u[l..|w|];
    }
  }

  /** The node a split leaves in the slot answers w and the keys w is a
    * prefix of (when a leaf was made for it), and otherwise what the old
    * child answered. */
  lemma SplitVia(c: Tree, l: nat, w: string, u: string)
    requires l < |c.prefix| && l <= |w| && c.prefix[..l] == w[..l]
    requires l < |w| ==> c.prefix[l] != w[l]
    ensures Via(Middle(c, l, w), u) == if u == w || (l < |w| && w <= u) then Some(w) else Via(c, u)
  {
    var m := Middle(c, l, w);
    assert m.prefix == c.prefix[..l];
    CommonFull(m.prefix, u);
    if m.prefix <= u {
      Rest(u, w, l);
      assert Via(m, u) == Prepend(m.prefix, Locate(m, u[l..]));
      MiddleLocate(c, l, w, u[l..]);
      if |u| == l {
        SplitViaHere(c, l, w, u);
      } else if l < |w| && u[l] == w[l] {
        SplitViaLeaf(c, l, w, u);
      } else if u[l] == c.prefix[l] {
        ViaRest(c, l, u);
        assert w != u && !(l < |w| && w <= u);
      }
    } else {
      CommonFull(c.prefix, u);
    }
  }

  /** A key that ends at the middle node: has_value is set exactly when it is w. */
  lemma SplitViaHere(c: Tree, l: nat, w: string, u: string)
    requires l < |c.prefix| && l <= |w| && c.prefix[..l] == w[..l]
    requires l < |w| ==> c.prefix[l] != w[l]
    requires |u| == l && c.prefix[..l] == u
    requires Via(Middle(c, l, w), u) == Prepend(c.prefix[..l], if l == |w| then Some([]) else None)
    ensures Via(Middle(c, l, w), u) == if u == w || (l < |w| && w <= u) then Some(w) else Via(c, u)
  {
    CommonFull(c.prefix, u);
    if l == |w| {
      assert u == w && c.prefix[..l] + [] == w;
    }
  }

  /** A key that takes the new leaf's slot of the middle node. */
  lemma SplitViaLeaf(c: Tree, l: nat, w: string, u: string)
    requires l < |c.prefix| && l < |w| && c.prefix[..l] == w[..l] && c.prefix[l] != w[l]
    requires l < |u| && c.prefix[..l] == u[..l] && u[l] == w[l]
    requires Via(Middle(c, l, w), u) == Prepend(c.prefix[..l], Via(Leaf(w[l..]), u[l..]))
    requires u[l..] == w[l..] <==> u == w
    requires w[l..] <= u[l..] <==> w <= u
    ensures Via(Middle(c, l, w), u) == if u == w || (l < |w| && w <= u) then Some(w) else Via(c, u)
  {
    CommonFull(w[l..], u[l..]);
    CommonFull(c.prefix, u);
    assert w == c.prefix[..l] + w[l..];
  }

  /** The middle node of a split, one slot at a time. */
  lemma MiddleLocate(c: Tree, l: nat, w: string, x: string)
    requires l < |c.prefix| && l <= |w| && c.prefix[..l] == w[..l]
    requires l < |w| ==> c.prefix[l] != w[l]
    ensures Locate(Middle(c, l, w), x) ==
              if x == [] then (if l == |w| then Some([]) else None)
              else if l < |w| && x[0] == w[l] then Via(Leaf(w[l..]), x)
              else if x[0] == c.prefix[l] then Via(c.(prefix := c.prefix[l..]), x)
              else None
  {
    var m := Middle(c, l, w);
    if x != [] {
      if l < |w| && x[0] == w[l] {
        assert m.children[x[0]] == Leaf(w[l..]);
      } else if x[0] == c.prefix[l] {
        assert m.children[x[0]] == c.(prefix := c.prefix[l..]);
      } else {
        assert x[0] !in m.children;
      }
    }
  }

  /** The old child, shortened by l characters, answers the rest after l as it
    * answered the whole key. */
  lemma ViaRest(c: Tree, l: nat, u: string)
    requires l < |c.prefix| && l <= |u| && c.prefix[..l] == u[..l]
    ensures Prepend(c.prefix[..l], Via(c.(prefix := c.prefix[l..]), u[l..])) == Via(c, u)
  {
    var rest := c.(prefix := c.prefix[l..]);
    var x := u[l..];
    CommonFull(rest.prefix, x);
    CommonFull(c.prefix, u);
    assert c.prefix == c.prefix[..l] + rest.prefix;
    Rest(u, c.prefix, l);
    if rest.prefix <= x {
      assert c.prefix <= u;
      if c.Normal? {
        var y := u[|c.prefix|..];
        assert x[|rest.prefix|..] == y;
        assert Via(rest, x) == Prepend(rest.prefix, Locate(rest, y));
        assert Via(c, u) == Prepend(c.prefix, Locate(c, y));
        LocateSame(rest, c, y);
        PrependTwice(c.prefix[..l], rest.prefix, Locate(c, y));
      }
    }
  }

  /** Locate does not read the prefix of the node it starts from. */
  lemma LocateSame(a: Tree, b: Tree, w: string)
    requires a.Normal? && b.Normal? && a.hasValue == b.hasValue && a.children == b.children
    ensures Locate(a, w) == Locate(b, w)
  {
  }

  lemma PrependTwice(a: string, b: string, k: Option<string>)
    ensures Prepend(a, Prepend(b, k)) == Prepend(a + b, k)
  {
    if k.Some? {
      assert a + (b + k.value) == (a + b) + k.value;
    }
  }

  /** After s_try_insert of w, the lookup of any u answers w when w was
    * inserted and u is w, or u extends w and w got a leaf; every other
    * answer is as before. */
  lemma {:induction false} InsertLocate(t: Tree, w: string, u: string)
    requires t.Normal?
    ensures var r := TryInsert(t, w);
            Locate(r.0, u) == if r.1 && (u == w || (r.2 && w <= u)) then Some(w) else Locate(t, u)
    decreases t
  {
    if w != [] && u != [] && u[0] == w[0] && w[0] in t.children {
      var c := t.children[w[0]];
      var l := Common(c.prefix, w);
      if l != |c.prefix| {
        SplitVia(c, l, w, u);
      } else if c.Normal? {
        CommonFull(c.prefix, w);
        CommonFull(c.prefix, u);
        if c.prefix <= u {
          InsertLocate(c, w[l..], u[l..]);
          Rest(u, w, l);
          DeeperVia(c, TryInsert(c, w[l..]), w, u);
        } else {
          assert !(w <= u) && u != w;
        }
      }
    } else if w != [] && u != [] && w[0] !in t.children && u[0] == w[0] {
      CommonFull(w, u);
    }
  }

  /** The recursive round of s_try_insert seen from the parent's slot. */
  lemma DeeperVia(c: Tree, r: (Tree, bool, bool), w: string, u: string)
    requires c.Normal? && r.0.Normal? && r.0.prefix == c.prefix
    requires c.prefix <= w && c.prefix <= u
    requires Locate(r.0, u[|c.prefix|..]) ==
               if r.1 && (u[|c.prefix|..] == w[|c.prefix|..] || (r.2 && w[|c.prefix|..] <= u[|c.prefix|..]))
               then Some(w[|c.prefix|..]) else Locate(c, u[|c.prefix|..])
    requires u[|c.prefix|..] == w[|c.prefix|..] <==> u == w
    requires w[|c.prefix|..] <= u[|c.prefix|..] <==> w <= u
    ensures Via(r.0, u) == if r.1 && (u == w || (r.2 && w <= u)) then Some(w) else Via(c, u)
  {
    CommonFull(c.prefix, u);
    assert w == c.prefix + w[|c.prefix|..];
  }

  /** s_try_insert reports an insertion exactly when the lookup used to
    * come back empty. */
  lemma {:induction false} InsertReports(t: Tree, w: string)
    requires t.Normal?
    ensures TryInsert(t, w).1 == Locate(t, w).None?
    decreases t
  {
    if w != [] && w[0] in t.children {
      var c := t.children[w[0]];
      if Common(c.prefix, w) == |c.prefix| && c.Normal? {
        InsertReports(c, w[|c.prefix|..]);
      }
    }
  }

  /** Splitting keeps every child under the first character of its prefix. */
  lemma MiddleWf(c: Tree, l: nat, w: string)
    requires Wf(c) && 0 < l < |c.prefix| && l <= |w| && c.prefix[..l] == w[..l]
    requires l < |w| ==> c.prefix[l] != w[l]
    ensures Wf(Middle(c, l, w)) && Middle(c, l, w).prefix != [] && Middle(c, l, w).prefix[0] == c.prefix[0]
  {
    var m := Middle(c, l, w);
    var rest := c.(prefix := c.prefix[l..]);
    assert Wf(rest);
    forall x | x in m.children
      ensures m.children[x].prefix != [] && m.children[x].prefix[0] == x && Wf(m.children[x])
    {
      if l < |w| && x == w[l] {
        assert m.children[x] == Leaf(w[l..]);
      } else {
        assert m.children[x] == rest;
      }
    }
  }

  /** s_try_insert keeps the tree well formed. */
  lemma {:induction false} InsertWf(t: Tree, w: string)
    requires t.Normal? && Wf(t)
    ensures Wf(TryInsert(t, w).0)
    decreases t
  {
    var r := TryInsert(t, w);
    if w != [] {
      if w[0] !in t.children {
        assert r.0.children == t.children[w[0] := Leaf(w)];
      } else {
        var c := t.children[w[0]];
        var l := Common(c.prefix, w);
        if l != |c.prefix| {
          assert c.prefix[0] == w[0];
          MiddleWf(c, l, w);
          assert r.0.children == t.children[w[0] := Middle(c, l, w)];
        } else if c.Normal? {
          InsertWf(c, w[l..]);
          assert r.0.children == t.children[w[0] := TryInsert(c, w[l..]).0];
        }
      }
    }
  }

  /** In a well-formed tree a lookup of a non-empty key that stops at a
    * child answers a non-empty key starting with the same character. */
  lemma LocateNonEmpty(t: Tree, w: string)
    requires t.Normal? && Wf(t) && w != [] && Locate(t, w).Some?
    ensures Locate(t, w).value != [] && Locate(t, w).value[0] == w[0]
  {
    var c := t.children[w[0]];
    assert c.prefix != [];
  }

  lemma PrependSame(a: string, x: Option<string>, y: Option<string>)
    ensures Prepend(a, x) == Prepend(a, y) <==> x == y
  {
    if x.Some? && y.Some? && a + x.value == a + y.value {
      assert x.value == (a + x.value)[|a|..];
      assert y.value == (a + y.value)[|a|..];
    }
  }

  /** s_try_remove reports a removal exactly when the lookup finds a node. */
  lemma {:induction false} RemoveReports(t: Tree, w: string)
    requires t.Normal?
    ensures TryRemove(t, w).1 == Locate(t, w).Some?
    decreases t
  {
    if w != [] && w[0] in t.children {
      var c := t.children[w[0]];
      if Common(c.prefix, w) == |c.prefix| && c.Normal? {
        RemoveReports(c, w[|c.prefix|..]);
      }
    }
  }

  /** After s_try_remove of w, every key whose lookup stopped where w's did
    * comes back empty: only w for has_value, and every key through the
    * unhooked leaf for a leaf. Every other answer is as before. */
  lemma {:induction false} RemoveLocate(t: Tree, w: string, u: string)
    requires t.Normal? && Wf(t)
    ensures Locate(TryRemove(t, w).0, u) == if Locate(t, u) == Locate(t, w) then None else Locate(t, u)
    decreases t
  {
    if u != [] && Locate(t, u).Some? {
      LocateNonEmpty(t, u);
    }
    if w != [] && Locate(t, w).Some? {
      LocateNonEmpty(t, w);
    }
    if w != [] && u != [] && u[0] == w[0] && w[0] in t.children {
      var c := t.children[w[0]];
      var l := |c.prefix|;
      CommonFull(c.prefix, w);
      CommonFull(c.prefix, u);
      if c.prefix <= w && c.Normal? && c.prefix <= u {
        var r := TryRemove(c, w[l..]);
        RemoveLocate(c, w[l..], u[l..]);
        assert Locate(TryRemove(t, w).0, u) == Prepend(c.prefix, Locate(r.0, u[l..]));
        PrependSame(c.prefix, Locate(c, u[l..]), Locate(c, w[l..]));
      }
    }
  }

  /** s_try_remove keeps the tree well formed. */
  lemma {:induction false} RemoveWf(t: Tree, w: string)
    requires t.Normal? && Wf(t)
    ensures Wf(TryRemove(t, w).0)
    decreases t
  {
    if w != [] && w[0] in t.children {
      var c := t.children[w[0]];
      if Common(c.prefix, w) == |c.prefix| && c.Normal? {
        RemoveWf(c, w[|c.prefix|..]);
        assert TryRemove(t, w).0.children == t.children[w[0] := TryRemove(c, w[|c.prefix|..]).0];
      }
    }
  }

  /** A lookup that stops short of the whole key stopped at a leaf, and every
    * extension of the leaf's key stops there too. */
  lemma {:induction false} LeafExtends(t: Tree, w: string, x: string)
    requires t.Normal? && Wf(t) && Locate(t, w).Some? && Locate(t, w).value != w
    ensures Locate(t, Locate(t, w).value + x) == Locate(t, w)
    decreases t
  {
    var k := Locate(t, w).value;
    var c := t.children[w[0]];
    assert c.prefix != [] && c.prefix[0] == w[0];
    CommonFull(c.prefix, w);
    CommonFull(c.prefix, k + x);
    if c.Leaf? {
      assert k == c.prefix;
    } else {
      var l := |c.prefix|;
      var k' := Locate(c, w[l..]).value;
      assert k == c.prefix + k';
      assert k' != w[l..];
      LeafExtends(c, w[l..], x);
      assert (k + x)[l..] == k' + x;
    }
  }

  /** Inserting a strict prefix w of a key u that the tree holds exactly
    * never ends at a leaf: the walk of w stops on the path of u. */
  lemma {:induction false} InsertBelowKey(t: Tree, w: string, u: string)
    requires t.Normal? && w <= u && w != u && Locate(t, u) == Some(u) && Locate(t, w).None?
    ensures !TryInsert(t, w).2
    decreases t
  {
    if w != [] {
      assert u[0] == w[0];
      var c := t.children[w[0]];
      var l := Common(c.prefix, w);
      CommonFull(c.prefix, u);
      if l != |c.prefix| {
      } else if c.Normal? {
        var k := |c.prefix|;
        assert u == c.prefix + u[k..];
        PrependSame(c.prefix, Locate(c, u[k..]), Some(u[k..]));
        Rest(u, w, k);
        InsertBelowKey(c, w[k..], u[k..]);
      }
    }
  }

  /** A key the tree holds exactly is still held exactly after any insertion. */
  lemma InsertKeepsKeys(t: Tree, w: string, u: string)
    requires t.Normal? && Locate(t, u) == Some(u)
    ensures Locate(TryInsert(t, w).0, u) == Some(u)
  {
    InsertLocate(t, w, u);
    InsertReports(t, w);
    if TryInsert(t, w).1 && u != w && w <= u {
      InsertBelowKey(t, w, u);
    }
  }

  /** s_split_at on the child in the parent's slot: the steps of the source
    * on the values. */
  method SplitAt(child: Tree, pos: nat, sv: string) returns (middle: Tree)
    requires pos < |child.prefix| && pos <= |sv| && child.prefix[..pos] == sv[..pos]
    requires pos < |sv| ==> child.prefix[pos] != sv[pos]
    ensures middle == Middle(child, pos, sv)
  {
    var rest := sv[pos..];
    var parts := Split(child, pos);
    var oldEntry := parts.1;
    middle := Normal(parts.0, false, map[]);
    middle := middle.(children := middle.children[Front(oldEntry) := oldEntry]);
    if rest == [] {
      middle := middle.(hasValue := true);
    } else {
      middle := middle.(children := middle.children[rest[0] := Leaf(rest)]);
    }
  }

  /** The normal nodes passed on the way down, each with the slot taken. */
  ghost predicate Passed(path: seq<(Tree, char)>) {
    forall i | 0 <= i < |path| :: path[i].0.Normal?
  }

  /** The tree with x put back in place of the node the path leads to. */
  function Plug(path: seq<(Tree, char)>, x: Tree): Tree
    requires Passed(path)
    decreases |path|
  {
    if path == [] then x
    else
      var f := path[|path| - 1];
      Plug(path[..|path| - 1], f.0.(children := f.0.children[f.1 := x]))
  }

  lemma PlugSnoc(path: seq<(Tree, char)>, n: Tree, c: char, x: Tree)
    requires Passed(path) && n.Normal?
    ensures Passed(path + [(n, c)])
    ensures Plug(path + [(n, c)], x) == Plug(path, n.(children := n.children[c := x]))
  {
    assert (path + [(n, c)])[..|path|] == path;
  }

  /** dark::radix_tree: the tree below m_root. */
  class RadixTree {
    var root: Tree

    ghost predicate Valid()
      reads this
    {
      root.Normal? && root.prefix == [] && Wf(root)
    }

    /** An empty root; no lookup finds anything. */
    constructor ()
      ensures Valid() && forall u :: Locate(root, u).None?
    {
      root := Normal([], false, map[]);
    }

    /** find: the root's has_value for the empty key, else s_try_locate. */
    method Find(sv: string) returns (found: bool)
      requires Valid()
      ensures found == Locate(root, sv).Some?
    {
      if sv == [] {
        return root.hasValue;
      }
      var node := root;
      var rest := sv;
      while true
        invariant node.Normal? && Locate(node, rest).Some? == Locate(root, sv).Some?
        decreases node
      {
        if rest == [] {
          return node.hasValue;
        }
        if rest[0] !in node.children {
          return false;
        }
        var child := node.children[rest[0]];
        var l := Match(child.prefix, rest);
        if l != |child.prefix| {
          return false;
        }
        if child.Leaf? {
          return true;
        }
        rest := rest[l..];
        node := child;
      }
    }

    /** insert (s_try_insert): on the way down, set has_value where the key
      * ends, hang a leaf in an empty slot, split a child matched in part, or
      * stop at a leaf matched in full. */
    method Insert(sv: string) returns (inserted: bool)
      requires Valid()
      modifies this
      ensures root == TryInsert(old(root), sv).0 && inserted == TryInsert(old(root), sv).1 && Valid()
      ensures inserted == old(Locate(root, sv)).None? && Locate(root, sv).Some?
      ensures forall u :: Locate(root, u) ==
                if inserted && (u == sv || (TryInsert(old(root), sv).2 && sv <= u)) then Some(sv)
                else old(Locate(root, u))
    {
      ghost var r0 := root;
      InsertReports(r0, sv);
      InsertWf(r0, sv);
      InsertLocate(r0, sv, sv);
      forall u
        ensures Locate(TryInsert(r0, sv).0, u) ==
                  if TryInsert(r0, sv).1 && (u == sv || (TryInsert(r0, sv).2 && sv <= u)) then Some(sv)
                  else Locate(r0, u)
      {
        InsertLocate(r0, sv, u);
      }
      var node := root;
      var rest := sv;
      var path: seq<(Tree, char)> := [];
      var top: Tree;
      while true
        invariant node.Normal? && Passed(path)
        invariant TryInsert(r0, sv).0 == Plug(path, TryInsert(node, rest).0)
        invariant TryInsert(r0, sv).1 == TryInsert(node, rest).1
        decreases node
      {
        if rest == [] {
          inserted := !node.hasValue;
          top := node.(hasValue := true);
          break;
        }
        if rest[0] !in node.children {
          inserted := true;
          top := node.(children := node.children[rest[0] := Leaf(rest)]);
          break;
        }
        var child := node.children[rest[0]];
        var l := Match(child.prefix, rest);
        if l != |child.prefix| {
          var middle := SplitAt(child, l, rest);
          inserted := true;
          top := node.(children := node.children[rest[0] := middle]);
          break;
        }
        if child.Leaf? {
          inserted := false;
          top := node;
          break;
        }
        PlugSnoc(path, node, rest[0], TryInsert(child, rest[l..]).0);
        path := path + [(node, rest[0])];
        rest := rest[l..];
        node := child;
      }
      root := Plug(path, top);
    }

    /** erase (s_try_remove): clear has_value where the key ends, or unhook
      * the leaf the lookup stops at. */
    method Erase(sv: string) returns (removed: bool)
      requires Valid()
      modifies this
      ensures root == TryRemove(old(root), sv).0 && removed == TryRemove(old(root), sv).1 && Valid()
      ensures removed == old(Locate(root, sv)).Some? && Locate(root, sv).None?
      ensures forall u :: Locate(root, u) ==
                if old(Locate(root, u)) == old(Locate(root, sv)) then None else old(Locate(root, u))
    {
      ghost var r0 := root;
      RemoveReports(r0, sv);
      RemoveWf(r0, sv);
      RemoveLocate(r0, sv, sv);
      forall u
        ensures Locate(TryRemove(r0, sv).0, u) == if Locate(r0, u) == Locate(r0, sv) then None else Locate(r0, u)
      {
        RemoveLocate(r0, sv, u);
      }
      var node := root;
      var rest := sv;
      var path: seq<(Tree, char)> := [];
      var top: Tree;
      while true
        invariant node.Normal? && Passed(path)
        invariant TryRemove(r0, sv).0 == Plug(path, TryRemove(node, rest).0)
        invariant TryRemove(r0, sv).1 == TryRemove(node, rest).1
        decreases node
      {
        if rest == [] {
          removed := node.hasValue;
          top := node.(hasValue := false);
          break;
        }
        if rest[0] !in node.children {
          removed := false;
          top := node;
          break;
        }
        var child := node.children[rest[0]];
        var l := Match(child.prefix, rest);
        if l != |child.prefix| {
          removed := false;
          top := node;
          break;
        }
        if child.Leaf? {
          removed := true;
          top := node.(children := node.children - {rest[0]});
          break;
        }
        PlugSnoc(path, node, rest[0], TryRemove(child, rest[l..]).0);
        path := path + [(node, rest[0])];
        rest := rest[l..];
        node := child;
      }
      root := Plug(path, top);
    }
  }

  /** The leaf test of s_try_insert, s_try_remove and s_try_locate as
    * written: with "-ab" stored, "-abc" is found (the lookup stops at the
    * leaf of "-ab"), cannot be inserted, and erasing it removes "-ab". */
  lemma LeafQuirk()
    ensures var t := TryInsert(Normal([], false, map[]), "-ab").0;
            Locate(t, "-abc") == Some("-ab") && !TryInsert(t, "-abc").1 &&
            Locate(TryRemove(t, "-abc").0, "-ab").None?
  {
  }

  /** The evidently intended find: a hit only when the node the lookup
    * stops at spells the key itself. */
  function Holds(t: Tree, w: string): bool
    requires t.Normal?
  {
    Locate(t, w) == Some(w)
  }

  /** s_try_insert with an exact leaf test: a leaf whose prefix the rest of
    * the key strictly extends becomes a normal node that holds its own key,
    * with a leaf for what remains. */
  function InsertExact(t: Tree, w: string): (r: (Tree, bool))
    requires t.Normal?
    ensures r.0.Normal? && r.0.prefix == t.prefix
    decreases t
  {
    if w == [] then (t.(hasValue := true), !t.hasValue)
    else if w[0] !in t.children then (t.(children := t.children[w[0] := Leaf(w)]), true)
    else
      var c := t.children[w[0]];
      var l := Common(c.prefix, w);
      if l != |c.prefix| then (t.(children := t.children[w[0] := Middle(c, l, w)]), true)
      else if c.Leaf? then
        if l == |w| then (t, false) else (t.(children := t.children[w[0] := Grow(c, w)]), true)
      else
        var r := InsertExact(c, w[l..]);
        (t.(children := t.children[w[0] := r.0]), r.1)
  }

  /** The leaf c, whose prefix w strictly extends, as a normal node. */
  function Grow(c: Tree, w: string): Tree
    requires |c.prefix| < |w|
  {
    Normal(c.prefix, true, map[w[|c.prefix|] := Leaf(w[|c.prefix|..])])
  }

  /** s_try_remove with an exact leaf test. */
  function RemoveExact(t: Tree, w: string): (r: (Tree, bool))
    requires t.Normal?
    ensures r.0.Normal? && r.0.prefix == t.prefix
    decreases t
  {
    if w == [] then (t.(hasValue := false), t.hasValue)
    else if w[0] !in t.children then (t, false)
    else
      var c := t.children[w[0]];
      if Common(c.prefix, w) != |c.prefix| then (t, false)
      else if c.Leaf? then
        if |c.prefix| == |w| then (t.(children := t.children - {w[0]}), true) else (t, false)
      else
        var r := RemoveExact(c, w[|c.prefix|..]);
        (t.(children := t.children[w[0] := r.0]), r.1)
  }

  /** Below a normal child whose prefix u extends, u is held exactly when
    * the rest of u is held exactly inside it. */
  lemma ViaHolds(n: Tree, u: string)
    requires n.Normal? && n.prefix <= u
    ensures (Via(n, u) == Some(u)) == Holds(n, u[|n.prefix|..])
  {
    var k := |n.prefix|;
    CommonFull(n.prefix, u);
    assert u == n.prefix + u[k..];
    PrependSame(n.prefix, Locate(n, u[k..]), Some(u[k..]));
  }

  /** A normal node holding its own key, with one leaf below it. */
  lemma GrowHolds(p: string, x: string, u: string)
    requires x != []
    ensures Holds(Normal(p, true, map[x[0] := Leaf(x)]), u) == (u == [] || u == x)
  {
    var n := Normal(p, true, map[x[0] := Leaf(x)]);
    if u != [] && u[0] == x[0] {
      CommonFull(x, u);
      assert Locate(n, u) == Via(Leaf(x), u);
    }
  }

  /** The grown leaf holds its own key and w. */
  lemma GrowVia(c: Tree, w: string, u: string)
    requires c.Leaf? && c.prefix <= w && |c.prefix| < |w|
    ensures (Via(Grow(c, w), u) == Some(u)) == (Via(c, u) == Some(u) || u == w)
  {
    var k := |c.prefix|;
    CommonFull(c.prefix, u);
    if c.prefix <= u {
      assert w[k..][0] == w[k];
      ViaHolds(Grow(c, w), u);
      GrowHolds(c.prefix, w[k..], u[k..]);
      Rest(u, w, k);
      assert u == c.prefix <==> u[k..] == [];
    }
  }

  /** Insertion with the exact leaf test is set insertion. */
  lemma {:induction false} InsertExactHolds(t: Tree, w: string, u: string)
    requires t.Normal?
    ensures Holds(InsertExact(t, w).0, u) == (Holds(t, u) || u == w)
    decreases t
  {
    if w != [] && u != [] && u[0] == w[0] && w[0] in t.children {
      var c := t.children[w[0]];
      var l := Common(c.prefix, w);
      CommonFull(c.prefix, w);
      if l != |c.prefix| {
        SplitVia(c, l, w, u);
        assert Locate(InsertExact(t, w).0, u) == Via(Middle(c, l, w), u);
        if l < |w| && w <= u {
          CommonFull(c.prefix, u);
          assert u[l] == w[l];
          assert Via(c, u) == None;
        }
      } else if c.Leaf? {
        if l < |w| {
          GrowVia(c, w, u);
          assert Locate(InsertExact(t, w).0, u) == Via(Grow(c, w), u);
        } else {
          assert c.prefix == w;
          assert Via(c, w) == Some(w);
        }
      } else {
        var n := InsertExact(c, w[l..]).0;
        assert Locate(InsertExact(t, w).0, u) == Via(n, u);
        CommonFull(c.prefix, u);
        if c.prefix <= u {
          InsertExactHolds(c, w[l..], u[l..]);
          Rest(u, w, l);
          ViaHolds(c, u);
          ViaHolds(n, u);
        } else {
          assert Via(n, u) == None && Via(c, u) == None;
        }
      }
    } else if w != [] && u != [] && w[0] !in t.children && u[0] == w[0] {
      CommonFull(w, u);
      assert Holds(InsertExact(t, w).0, u) == (Via(Leaf(w), u) == Some(u));
    }
  }

  /** Insertion with the exact leaf test reports whether the key was new. */
  lemma {:induction false} InsertExactReports(t: Tree, w: string)
    requires t.Normal?
    ensures InsertExact(t, w).1 == !Holds(t, w)
    decreases t
  {
    if w != [] && w[0] in t.children {
      var c := t.children[w[0]];
      var l := Common(c.prefix, w);
      CommonFull(c.prefix, w);
      if l != |c.prefix| {
        assert Via(c, w) == None;
      } else if c.Leaf? {
        assert Via(c, w) == Some(c.prefix);
        if l == |w| {
          assert c.prefix == w;
        }
      } else {
        InsertExactReports(c, w[l..]);
        ViaHolds(c, w);
      }
    }
  }

  /** Removal with the exact leaf test is set removal. */
  lemma {:induction false} RemoveExactHolds(t: Tree, w: string, u: string)
    requires t.Normal?
    ensures Holds(RemoveExact(t, w).0, u) == (Holds(t, u) && u != w)
    decreases t
  {
    if w != [] && u != [] && u[0] == w[0] && w[0] in t.children {
      var c := t.children[w[0]];
      var l := Common(c.prefix, w);
      CommonFull(c.prefix, w);
      CommonFull(c.prefix, u);
      if l != |c.prefix| {
        assert Via(c, w) == None;
      } else if c.Leaf? {
        assert Via(c, u) == if c.prefix <= u then Some(c.prefix) else None;
        if l == |w| {
          assert c.prefix == w;
          assert Locate(RemoveExact(t, w).0, u) == None;
        }
      } else {
        var n := RemoveExact(c, w[l..]).0;
        assert Locate(RemoveExact(t, w).0, u) == Via(n, u);
        if c.prefix <= u {
          RemoveExactHolds(c, w[l..], u[l..]);
          Rest(u, w, l);
          ViaHolds(c, u);
          ViaHolds(n, u);
        } else {
          assert Via(n, u) == None && Via(c, u) == None;
        }
      }
    }
  }

  /** Removal with the exact leaf test reports whether the key was there. */
  lemma {:induction false} RemoveExactReports(t: Tree, w: string)
    requires t.Normal?
    ensures RemoveExact(t, w).1 == Holds(t, w)
    decreases t
  {
    if w != [] && w[0] in t.children {
      var c := t.children[w[0]];
      var l := Common(c.prefix, w);
      CommonFull(c.prefix, w);
      if l != |c.prefix| {
        assert Via(c, w) == None;
      } else if c.Leaf? {
        assert Via(c, w) == Some(c.prefix);
        if l == |w| {
          assert c.prefix == w;
        }
      } else {
        RemoveExactReports(c, w[l..]);
        ViaHolds(c, w);
      }
    }
  }

  /** Four keys shaped like "-hello", "-world", "-dark" and "-w": three
    * keys that differ in their second character, and a strict prefix of the
    * second one. */
  ghost predicate Shaped(hello: string, world: string, dark: string, w: string) {
    |hello| > 1 && |world| > 1 && |dark| > 1 &&
    hello[1] != world[1] && hello[1] != dark[1] && world[1] != dark[1] &&
    |w| > 1 && w <= world && w != world
  }

  /** correctness_string on any four keys of that shape: insert hello and
    * world, then dark and w, erase hello, then w; the eleven answers of find
    * in order. */
  method Scenario(hello: string, world: string, dark: string, w: string) returns (answers: seq<bool>)
    requires Shaped(hello, world, dark, w)
    ensures answers == [true, true, false, true, true, true, false, true, true, false, true]
  {
    var trie := FirstRound(hello, world, dark, w);
    var a1, a2, a3 := MiddleRound(trie, hello, world, dark, w);
    var a4, a5, a6, a7, a8, a9, a10, a11 := SecondRound(trie, hello, world, dark, w);
    answers := [a1, a2, a3, a4, a5, a6, a7, a8, a9, a10, a11];
  }

  /** A new tree and the first two insertions. */
  method FirstRound(hello: string, world: string, dark: string, w: string) returns (trie: RadixTree)
    requires Shaped(hello, world, dark, w)
    ensures fresh(trie) && trie.Valid()
    ensures Locate(trie.root, hello) == Some(hello) && Locate(trie.root, world) == Some(world)
    ensures Locate(trie.root, dark).None? && Locate(trie.root, w).None?
  {
    trie := new RadixTree();
    var done := trie.Insert(hello);
    assert Locate(trie.root, hello) == Some(hello) && Locate(trie.root, world).None?;
    assert Locate(trie.root, dark).None? && Locate(trie.root, w).None?;
    done := trie.Insert(world);
  }

  /** The first three finds and the insertion of dark. */
  method MiddleRound(trie: RadixTree, hello: string, world: string, dark: string, w: string)
    returns (a1: bool, a2: bool, a3: bool)
    requires Shaped(hello, world, dark, w)
    requires trie.Valid()
    requires Locate(trie.root, hello) == Some(hello) && Locate(trie.root, world) == Some(world)
    requires Locate(trie.root, dark).None? && Locate(trie.root, w).None?
    modifies trie
    ensures trie.Valid() && a1 && a2 && !a3
    ensures Locate(trie.root, hello) == Some(hello) && Locate(trie.root, world) == Some(world)
    ensures Locate(trie.root, dark) == Some(dark) && Locate(trie.root, w).None?
  {
    a1 := trie.Find(hello);
    a2 := trie.Find(world);
    a3 := trie.Find(dark);
    var done := trie.Insert(dark);
  }

  /** From the insertion of w on, after the answers of the first three finds. */
  method SecondRound(trie: RadixTree, hello: string, world: string, dark: string, w: string)
    returns (a4: bool, a5: bool, a6: bool, a7: bool, a8: bool, a9: bool, a10: bool, a11: bool)
    requires Shaped(hello, world, dark, w)
    requires trie.Valid()
    requires Locate(trie.root, hello) == Some(hello) && Locate(trie.root, world) == Some(world)
    requires Locate(trie.root, dark) == Some(dark) && Locate(trie.root, w).None?
    modifies trie
    ensures a4 && a5 && a6 && !a7 && a8 && a9 && !a10 && a11
  {
    assert w[1] == world[1];
    InsertBelowKey(trie.root, w, world);
    var done := trie.Insert(w);
    assert Locate(trie.root, hello) == Some(hello) && Locate(trie.root, world) == Some(world);
    assert Locate(trie.root, w) == Some(w);
    a4 := trie.Find(hello);
    a5 := trie.Find(world);
    a6 := trie.Find(dark);
    done := trie.Erase(hello);
    assert Locate(trie.root, hello).None? && Locate(trie.root, world) == Some(world);
    assert Locate(trie.root, w) == Some(w);
    a7 := trie.Find(hello);
    a8 := trie.Find(world);
    a9 := trie.Find(w);
    done := trie.Erase(w);
    a10 := trie.Find(w);
    a11 := trie.Find(world);
  }

  /** correctness_string itself (the keys of the source). */
  method CorrectnessString() returns (answers: seq<bool>)
    ensures answers == [true, true, false, true, true, true, false, true, true, false, true]
  {
    answers := Scenario("-hello", "-world", "-dark", "-w");
  }
}
