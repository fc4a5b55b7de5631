/**
 * Edits that change the set of nodes: attaching a new leaf, dropping a leaf,
 * and a node taking over its only child. Each shifts the in-order indices
 * by one at a single place.
 */
module TreeEdit {
  import opened Common
  import opened Arena

  /** An index after inserting one slot at `t`; `keep` leaves `t` itself in place. */
  function Bump(v: nat, t: nat, keep: bool): (r: nat)
    ensures r == v || r == v + 1
    ensures v < t ==> r == v
    ensures v > t ==> r == v + 1
  {
    if v > t || (v == t && !keep) then v + 1 else v
  }

  /** An index after deleting the slot at `t`. */
  function Sink(v: nat, t: nat): (r: nat)
    ensures v <= t ==> r == v
    ensures v > t ==> r == v - 1
  {
    if v > t then v - 1 else v
  }

  // ---------------------------------------------------------------------
  // Attaching a leaf.

  /**
   * The layout after a new node `n` enters the in-order at index `t` as a
   * child of `q`. Spans that start or end at `t` keep that bound when `keep`
   * (a left child, entering just before `q`) and move when not (a right
   * child, entering just after `q`).
   */
  ghost function Attached(L: Layout, n: nat, t: nat, keep: bool, q: nat): Layout
    requires t <= |L.order|
  {
    Layout(L.order[..t] + [n] + L.order[t..],
           (map i | i in L.pos :: Bump(L.pos[i], t, false))[n := t],
           (map i | i in L.at :: Span(Bump(L.at[i].lo, t, keep), Bump(L.at[i].hi, t, keep), L.at[i].up))
             [n := Span(t, t + 1, Some(q))])
  }

  /** The child slot of `q` on the chosen side is free, and `n` is a fresh id. */
  ghost predicate FreeSlot<K>(m: map<nat, Cell<K>>, L: Layout, q: nat, n: nat, left: bool)
  {
    && Indexed(m, L) && q in m && n !in m
    && (if left then m[q].left.None? else m[q].right.None?)
  }

  ghost function Slot<K>(m: map<nat, Cell<K>>, L: Layout, q: nat, left: bool): nat
    requires Indexed(m, L) && q in m
  {
    if left then L.pos[q] else L.pos[q] + 1
  }

  /** The arena with `n` hung below `q`. */
  ghost function Hung<K>(m: map<nat, Cell<K>>, q: nat, n: nat, c: Cell<K>, left: bool): map<nat, Cell<K>>
    requires q in m
  {
    m[q := if left then m[q].(left := Some(n)) else m[q].(right := Some(n))][n := c]
  }

  lemma AttachOrder<K>(m: map<nat, Cell<K>>, L: Layout, q: nat, n: nat, left: bool, c: Cell<K>)
    requires FreeSlot(m, L, q, n, left) && NodeOk(m, L, q)
    ensures var m', L' := Hung(m, q, n, c, left), Attached(L, n, Slot(m, L, q, left), left, q);
      forall j | 0 <= j < |L'.order| :: L'.order[j] in m' && L'.pos[L'.order[j]] == j
  {
    var t := Slot(m, L, q, left);
    var m', L' := Hung(m, q, n, c, left), Attached(L, n, t, left, q);
    forall j | 0 <= j < |L'.order| ensures L'.order[j] in m' && L'.pos[L'.order[j]] == j {
      if j < t {
        assert L'.order[j] == L.order[j];
      } else if j > t {
        assert L'.order[j] == L.order[j - 1];
      }
    }
  }

  lemma AttachPos<K>(m: map<nat, Cell<K>>, L: Layout, q: nat, n: nat, left: bool, c: Cell<K>)
    requires FreeSlot(m, L, q, n, left) && NodeOk(m, L, q)
    ensures var m', L' := Hung(m, q, n, c, left), Attached(L, n, Slot(m, L, q, left), left, q);
      forall i | i in m' :: L'.pos[i] < |L'.order| && L'.order[L'.pos[i]] == i
  {
    var t := Slot(m, L, q, left);
    var m', L' := Hung(m, q, n, c, left), Attached(L, n, t, left, q);
    forall i | i in m' ensures L'.pos[i] < |L'.order| && L'.order[L'.pos[i]] == i {
      if i != n {
        var p := L.pos[i];
        if p < t {
          assert L'.order[p] == L.order[p];
        } else {
          assert L'.order[p + 1] == L.order[p];
        }
      }
    }
  }

  lemma AttachIndexed<K>(m: map<nat, Cell<K>>, L: Layout, q: nat, n: nat, left: bool, c: Cell<K>)
    requires FreeSlot(m, L, q, n, left) && NodeOk(m, L, q)
    ensures Indexed(Hung(m, q, n, c, left), Attached(L, n, Slot(m, L, q, left), left, q))
  {
    AttachOrder(m, L, q, n, left, c);
    AttachPos(m, L, q, n, left, c);
  }

  lemma AttachAtNew<K>(m: map<nat, Cell<K>>, L: Layout, q: nat, n: nat, left: bool, c: Cell<K>)
    requires FreeSlot(m, L, q, n, left) && NodeOk(m, L, q) && c.left.None? && c.right.None?
    requires Covers(Hung(m, q, n, c, left), Attached(L, n, Slot(m, L, q, left), left, q))
    ensures NodeOk(Hung(m, q, n, c, left), Attached(L, n, Slot(m, L, q, left), left, q), n)
  {
  }

  lemma AttachAtSlot<K>(m: map<nat, Cell<K>>, L: Layout, q: nat, n: nat, left: bool, c: Cell<K>)
    requires FreeSlot(m, L, q, n, left) && NodeOk(m, L, q)
    requires Covers(Hung(m, q, n, c, left), Attached(L, n, Slot(m, L, q, left), left, q))
    ensures NodeOk(Hung(m, q, n, c, left), Attached(L, n, Slot(m, L, q, left), left, q), q)
  {
    var t := Slot(m, L, q, left);
    var m', L' := Hung(m, q, n, c, left), Attached(L, n, t, left, q);
    if m[q].left.Some? {
      var l := m[q].left.value;
      assert l != n;
      assert L'.at[l] == Span(Bump(L.at[l].lo, t, left), Bump(L.at[l].hi, t, left), L.at[l].up);
    }
    if m[q].right.Some? {
      var r := m[q].right.value;
      assert r != n;
      assert L'.at[r] == Span(Bump(L.at[r].lo, t, left), Bump(L.at[r].hi, t, left), L.at[r].up);
    }
    if L.at[q].up.Some? {
      var p := L.at[q].up.value;
      assert p != n && p != q;
    }
  }

  /** The span of `i` after the insertion at `t`. */
  ghost predicate BumpedAt(L: Layout, L': Layout, i: nat, t: nat, keep: bool)
    requires i in L.at && i in L'.at
  {
    L'.at[i] == Span(Bump(L.at[i].lo, t, keep), Bump(L.at[i].hi, t, keep), L.at[i].up)
  }

  /** A node away from the insertion keeps its local invariant after the shift. */
  lemma Bumped<K>(m: map<nat, Cell<K>>, L: Layout, m': map<nat, Cell<K>>, L': Layout, i: nat, t: nat, keep: bool)
    requires Indexed(m, L) && Covers(m', L') && i in m && i in m' && NodeOk(m, L, i)
    requires |L'.order| == |L.order| + 1 && L'.pos[i] == Bump(L.pos[i], t, false)
    requires if keep then L.pos[i] != t else L.pos[i] + 1 != t
    requires SameLinks(m, m', i) && BumpedAt(L, L', i, t, keep)
    requires m[i].left.Some? ==> m[i].left.value in m' && BumpedAt(L, L', m[i].left.value, t, keep)
    requires m[i].right.Some? ==> m[i].right.value in m' && BumpedAt(L, L', m[i].right.value, t, keep)
    requires L.at[i].up.Some? ==> var p := L.at[i].up.value;
      p in m' && (m'[p].left == Some(i) || m'[p].right == Some(i))
    ensures NodeOk(m', L', i)
  {
  }

  lemma AttachElsewhere<K>(m: map<nat, Cell<K>>, L: Layout, q: nat, n: nat, left: bool, c: Cell<K>, i: nat)
    requires FreeSlot(m, L, q, n, left) && NodeOk(m, L, q)
    requires Covers(Hung(m, q, n, c, left), Attached(L, n, Slot(m, L, q, left), left, q))
    requires i in m && i != q && NodeOk(m, L, i)
    ensures NodeOk(Hung(m, q, n, c, left), Attached(L, n, Slot(m, L, q, left), left, q), i)
  {
    var t := Slot(m, L, q, left);
    var m', L' := Hung(m, q, n, c, left), Attached(L, n, t, left, q);
    assert L.pos[i] != L.pos[q];
    assert BumpedAt(L, L', i, t, left);
    if m[i].left.Some? {
      var l := m[i].left.value;
      assert l != n;
      assert BumpedAt(L, L', l, t, left);
    }
    if m[i].right.Some? {
      var r := m[i].right.value;
      assert r != n;
      assert BumpedAt(L, L', r, t, left);
    }
    if L.at[i].up.Some? {
      var p := L.at[i].up.value;
      assert p != n;
      if p == q {
        assert if left then m'[q].right == m[q].right else m'[q].left == m[q].left;
      } else {
        assert m'[p] == m[p];
      }
    }
    assert |L'.order| == |L.order| + 1;
    assert L'.pos[i] == Bump(L.pos[i], t, false);
    Bumped(m, L, m', L', i, t, left);
  }

  lemma AttachNodes<K>(m: map<nat, Cell<K>>, root: Option<nat>, L: Layout, q: nat, n: nat, left: bool, c: Cell<K>)
    requires Shaped(m, root, L) && FreeSlot(m, L, q, n, left) && c.left.None? && c.right.None?
    requires Covers(Hung(m, q, n, c, left), Attached(L, n, Slot(m, L, q, left), left, q))
    ensures var m', L' := Hung(m, q, n, c, left), Attached(L, n, Slot(m, L, q, left), left, q);
      forall i | i in m' :: NodeOk(m', L', i)
  {
    var m', L' := Hung(m, q, n, c, left), Attached(L, n, Slot(m, L, q, left), left, q);
    assert NodeOk(m, L, q);
    forall i | i in m' ensures NodeOk(m', L', i) {
      if i == n {
        AttachAtNew(m, L, q, n, left, c);
      } else if i == q {
        AttachAtSlot(m, L, q, n, left, c);
      } else {
        assert NodeOk(m, L, i);
        AttachElsewhere(m, L, q, n, left, c, i);
      }
    }
  }

  lemma AttachRoot<K>(m: map<nat, Cell<K>>, root: Option<nat>, L: Layout, q: nat, n: nat, left: bool, c: Cell<K>)
    requires Indexed(m, L) && RootOk(m, root, L) && FreeSlot(m, L, q, n, left) && NodeOk(m, L, q)
    requires Covers(Hung(m, q, n, c, left), Attached(L, n, Slot(m, L, q, left), left, q))
    ensures RootOk(Hung(m, q, n, c, left), root, Attached(L, n, Slot(m, L, q, left), left, q))
  {
    var t := Slot(m, L, q, left);
    var m', L' := Hung(m, q, n, c, left), Attached(L, n, t, left, q);
    var r := root.value;
    assert BumpedAt(L, L', r, t, left);
    forall i | i in m' && L'.at[i].up == None ensures root == Some(i) {
      assert i != n;
      assert BumpedAt(L, L', i, t, left);
    }
  }

  lemma AttachKeys<K>(m: map<nat, Cell<K>>, L: Layout, q: nat, n: nat, left: bool, c: Cell<K>)
    requires FreeSlot(m, L, q, n, left) && NodeOk(m, L, q)
    requires Listed(Hung(m, q, n, c, left), Attached(L, n, Slot(m, L, q, left), left, q))
    ensures var t := Slot(m, L, q, left);
      Keys(Hung(m, q, n, c, left), Attached(L, n, t, left, q)) == Keys(m, L)[..t] + [c.key] + Keys(m, L)[t..]
  {
    var t := Slot(m, L, q, left);
    var m', L' := Hung(m, q, n, c, left), Attached(L, n, t, left, q);
    var s, s' := Keys(m, L), Keys(m', L');
    var e := s[..t] + [c.key] + s[t..];
    assert |e| == |s'|;
    forall j | 0 <= j < |s'| ensures s'[j] == e[j] {
      if j < t {
        var x := L.order[j];
        assert L'.order[j] == x && x != n && s'[j] == m'[x].key && m'[x].key == m[x].key;
        assert e[j] == s[j];
      } else if j > t {
        var x := L.order[j - 1];
        assert L'.order[j] == x && x != n && s'[j] == m'[x].key && m'[x].key == m[x].key;
        assert e[j] == s[j - 1];
      } else {
        assert L'.order[j] == n && e[j] == c.key;
      }
    }
  }

  lemma AttachLinked<K>(m: map<nat, Cell<K>>, L: Layout, q: nat, n: nat, left: bool, c: Cell<K>)
    requires FreeSlot(m, L, q, n, left) && NodeOk(m, L, q) && Linked(m, L) && c.parent == Some(q)
    requires Covers(Hung(m, q, n, c, left), Attached(L, n, Slot(m, L, q, left), left, q))
    ensures Linked(Hung(m, q, n, c, left), Attached(L, n, Slot(m, L, q, left), left, q))
  {
    var t := Slot(m, L, q, left);
    var m', L' := Hung(m, q, n, c, left), Attached(L, n, t, left, q);
    forall i | i in m' ensures m'[i].parent == L'.at[i].up {
      if i != n {
        assert BumpedAt(L, L', i, t, left);
      }
    }
  }

  /**
   * Hanging a fresh leaf `n` in a free child slot of `q` gives a tree whose
   * in-order is the old one with the new key entered at `Slot(m, L, q, left)`:
   * just before `q` for a left child, just after it for a right child.
   */
  lemma AttachShaped<K>(m: map<nat, Cell<K>>, root: Option<nat>, L: Layout, q: nat, n: nat, left: bool, c: Cell<K>)
    requires Shaped(m, root, L) && FreeSlot(m, L, q, n, left) && c.left.None? && c.right.None?
    ensures var t := Slot(m, L, q, left);
      && t <= |L.order|
      && Shaped(Hung(m, q, n, c, left), root, Attached(L, n, t, left, q))
      && Keys(Hung(m, q, n, c, left), Attached(L, n, t, left, q)) == Keys(m, L)[..t] + [c.key] + Keys(m, L)[t..]
      && (Linked(m, L) && c.parent == Some(q) ==> Linked(Hung(m, q, n, c, left), Attached(L, n, t, left, q)))
  {
    assert NodeOk(m, L, q);
    AttachIndexed(m, L, q, n, left, c);
    AttachNodes(m, root, L, q, n, left, c);
    AttachRoot(m, root, L, q, n, left, c);
    AttachKeys(m, L, q, n, left, c);
    if Linked(m, L) && c.parent == Some(q) {
      AttachLinked(m, L, q, n, left, c);
    }
  }

  /** A single node planted in an empty tree. */
  lemma PlantShaped<K>(n: nat, c: Cell<K>)
    requires c.left.None? && c.right.None? && c.parent.None?
    ensures var L := Layout([n], map[n := 0], map[n := Span(0, 1, None)]);
      Shaped(map[n := c], Some(n), L) && Linked(map[n := c], L) && Keys(map[n := c], L) == [c.key]
  {
    var L := Layout([n], map[n := 0], map[n := Span(0, 1, None)]);
    assert NodeOk(map[n := c], L, n);
  }

  // ---------------------------------------------------------------------
  // Overwriting a key.

  /** Writing a new key into node `n` changes only the in-order key at its index. */
  lemma Rekeyed<K>(m: map<nat, Cell<K>>, root: Option<nat>, L: Layout, n: nat, k: K)
    requires Shaped(m, root, L) && n in m
    ensures Shaped(m[n := m[n].(key := k)], root, L)
    ensures L.pos[n] < |L.order|
    ensures Keys(m[n := m[n].(key := k)], L) == Keys(m, L)[L.pos[n] := k]
    ensures Linked(m, L) ==> Linked(m[n := m[n].(key := k)], L)
  {
    var m' := m[n := m[n].(key := k)];
    RekeyedShaped(m, root, L, n, k, m');
    RekeyedKeys(m, L, n, k, m');
  }

  lemma RekeyedShaped<K>(m: map<nat, Cell<K>>, root: Option<nat>, L: Layout, n: nat, k: K, m': map<nat, Cell<K>>)
    requires Shaped(m, root, L) && n in m && m' == m[n := m[n].(key := k)]
    ensures Shaped(m', root, L)
  {
    forall i | i in m' ensures NodeOk(m', L, i) {
      assert NodeOk(m, L, i);
    }
  }

  lemma RekeyedKeys<K>(m: map<nat, Cell<K>>, L: Layout, n: nat, k: K, m': map<nat, Cell<K>>)
    requires Indexed(m, L) && n in m && m' == m[n := m[n].(key := k)]
    ensures Listed(m', L) && L.pos[n] < |L.order|
    ensures Keys(m', L) == Keys(m, L)[L.pos[n] := k]
  {
  }

  // ---------------------------------------------------------------------
  // Removing one in-order slot.

  /** The layout after the node at index `t` leaves the in-order. */
  ghost function Shrunk(L: Layout, t: nat): Layout
    requires t < |L.order|
  {
    Layout(L.order[..t] + L.order[t + 1..],
           map i | i in L.pos :: Sink(L.pos[i], t),
           map i | i in L.at :: Span(Sink(L.at[i].lo, t), Sink(L.at[i].hi, t), L.at[i].up))
  }

  /** The bounds of the span of `i` after the slot at `t` went away. */
  ghost predicate SunkAt(L: Layout, L': Layout, i: nat, t: nat)
    requires i in L.at && i in L'.at
  {
    L'.at[i].lo == Sink(L.at[i].lo, t) && L'.at[i].hi == Sink(L.at[i].hi, t)
  }

  /** A node away from the removed slot keeps its local invariant after the shift. */
  lemma Sunk<K>(m: map<nat, Cell<K>>, L: Layout, m': map<nat, Cell<K>>, L': Layout, i: nat, t: nat)
    requires Indexed(m, L) && Covers(m', L') && i in m && i in m' && NodeOk(m, L, i)
    requires |L'.order| + 1 == |L.order| && t < |L.order|
    requires L.pos[i] != t && L'.pos[i] == Sink(L.pos[i], t)
    requires SameLinks(m, m', i) && SunkAt(L, L', i, t)
    requires m[i].left.Some? ==> var l := m[i].left.value;
      l in m' && SunkAt(L, L', l, t) && L'.at[l].up == Some(i)
    requires m[i].right.Some? ==> var r := m[i].right.value;
      r in m' && SunkAt(L, L', r, t) && L'.at[r].up == Some(i)
    requires L'.at[i].up.Some? ==> var p := L'.at[i].up.value;
      p in m' && (m'[p].left == Some(i) || m'[p].right == Some(i))
    ensures NodeOk(m', L', i)
  {
  }

  /** The index of node `i` in the in-order; a convenience of the proofs below. */
  lemma OrderAt<K>(m: map<nat, Cell<K>>, L: Layout, i: nat)
    requires Indexed(m, L) && i in m
    ensures L.pos[i] < |L.order| && L.order[L.pos[i]] == i
  {
  }

  lemma ShrunkIndexed<K>(m: map<nat, Cell<K>>, L: Layout, n: nat, m': map<nat, Cell<K>>)
    requires Indexed(m, L) && n in m && m'.Keys == m.Keys - {n}
    ensures Indexed(m', Shrunk(L, L.pos[n]))
  {
    var t := L.pos[n];
    var L' := Shrunk(L, t);
    forall j | 0 <= j < |L'.order| ensures L'.order[j] in m' && L'.pos[L'.order[j]] == j {
      if j < t {
        assert L'.order[j] == L.order[j];
      } else {
        assert L'.order[j] == L.order[j + 1];
      }
    }
    forall i | i in m' ensures L'.pos[i] < |L'.order| && L'.order[L'.pos[i]] == i {
      var p := L.pos[i];
      if p < t {
        assert L'.order[p] == L.order[p];
      } else {
        assert L'.order[p - 1] == L.order[p];
      }
    }
  }

  lemma ShrunkKeys<K>(m: map<nat, Cell<K>>, L: Layout, n: nat, m': map<nat, Cell<K>>)
    requires Indexed(m, L) && n in m && m'.Keys == m.Keys - {n}
    requires forall i | i in m' :: m'[i].key == m[i].key
    requires Listed(m', Shrunk(L, L.pos[n]))
    ensures Keys(m', Shrunk(L, L.pos[n])) == Keys(m, L)[..L.pos[n]] + Keys(m, L)[L.pos[n] + 1..]
  {
    var t := L.pos[n];
    var L' := Shrunk(L, t);
    var s, s' := Keys(m, L), Keys(m', L');
    forall j | 0 <= j < |s'| ensures s'[j] == (s[..t] + s[t + 1..])[j] {
      if j < t {
        assert L'.order[j] == L.order[j];
      } else {
        assert L'.order[j] == L.order[j + 1];
      }
    }
  }

  // ---------------------------------------------------------------------
  // Dropping a leaf.

  /** `m'` is `m` without the leaf `n`, which `removeChild` unhooked from its parent `p`. */
  ghost predicate Dropped<K>(m: map<nat, Cell<K>>, n: nat, p: nat, m': map<nat, Cell<K>>)
    requires p in m
  {
    && m'.Keys == m.Keys - {n} && p in m'
    && m'[p].left == RemoveChild(m[p], n).left && m'[p].right == RemoveChild(m[p], n).right
    && (forall i | i in m' :: m'[i].key == m[i].key)
    && (forall i {:trigger SameLinks(m, m', i)} | i in m' && i != p :: SameLinks(m, m', i))
  }

  /** A leaf with a parent: what `removeNodeWithNoChildren` starts from. */
  ghost predicate InnerLeaf<K>(m: map<nat, Cell<K>>, L: Layout, n: nat)
  {
    Indexed(m, L) && n in m && m[n].left.None? && m[n].right.None? && L.at[n].up.Some?
    && L.at[n].up.value in m
  }

  /** No node is its own child. */
  lemma NotOwnChild<K>(m: map<nat, Cell<K>>, L: Layout, i: nat)
    requires Indexed(m, L) && i in m && NodeOk(m, L, i)
    ensures m[i].left != Some(i) && m[i].right != Some(i)
  {
  }

  /** The parent of a dropped leaf keeps its local invariant with that slot empty. */
  lemma Unhooked<K>(m: map<nat, Cell<K>>, L: Layout, m': map<nat, Cell<K>>, L': Layout, p: nat, n: nat)
    requires Indexed(m, L) && Covers(m', L') && p in m && p in m' && n in m
    requires NodeOk(m, L, p) && NodeOk(m, L, n) && m[n].left.None? && m[n].right.None?
    requires m[p].left == Some(n) || m[p].right == Some(n)
    requires |L'.order| + 1 == |L.order| && L'.pos[p] == Sink(L.pos[p], L.pos[n])
    requires m'[p].left == RemoveChild(m[p], n).left && m'[p].right == RemoveChild(m[p], n).right
    requires SunkAt(L, L', p, L.pos[n]) && L'.at[p].up == L.at[p].up
    requires m[p].left.Some? && m[p].left != Some(n) ==> var l := m[p].left.value;
      l in m' && SunkAt(L, L', l, L.pos[n]) && L'.at[l].up == Some(p)
    requires m[p].right.Some? && m[p].right != Some(n) ==> var r := m[p].right.value;
      r in m' && SunkAt(L, L', r, L.pos[n]) && L'.at[r].up == Some(p)
    requires L'.at[p].up.Some? ==> var q := L'.at[p].up.value;
      q in m' && (m'[q].left == Some(p) || m'[q].right == Some(p))
    ensures NodeOk(m', L', p)
  {
  }

  lemma DropAtParent<K>(m: map<nat, Cell<K>>, L: Layout, n: nat, m': map<nat, Cell<K>>)
    requires InnerLeaf(m, L, n) && Dropped(m, n, L.at[n].up.value, m')
    requires NodeOk(m, L, n) && NodeOk(m, L, L.at[n].up.value)
    requires Covers(m', Shrunk(L, L.pos[n]))
    ensures NodeOk(m', Shrunk(L, L.pos[n]), L.at[n].up.value)
  {
    var t, p := L.pos[n], L.at[n].up.value;
    var L' := Shrunk(L, t);
    NotOwnChild(m, L, p);
    assert SunkAt(L, L', p, t) && L'.at[p].up == L.at[p].up;
    if m[p].left.Some? && m[p].left != Some(n) {
      var l := m[p].left.value;
      assert SunkAt(L, L', l, t) && L'.at[l].up == L.at[l].up;
    }
    if m[p].right.Some? && m[p].right != Some(n) {
      var r := m[p].right.value;
      assert SunkAt(L, L', r, t) && L'.at[r].up == L.at[r].up;
    }
    if L.at[p].up.Some? {
      var q := L.at[p].up.value;
      NotOwnChild(m, L, p);
      assert q != n && q != p;
      assert SameLinks(m, m', q);
    }
    Unhooked(m, L, m', L', p, n);
  }

  lemma DropElsewhere<K>(m: map<nat, Cell<K>>, L: Layout, n: nat, m': map<nat, Cell<K>>, i: nat)
    requires InnerLeaf(m, L, n) && Dropped(m, n, L.at[n].up.value, m')
    requires NodeOk(m, L, n) && NodeOk(m, L, L.at[n].up.value)
    requires Covers(m', Shrunk(L, L.pos[n]))
    requires i in m' && i != L.at[n].up.value && NodeOk(m, L, i)
    ensures NodeOk(m', Shrunk(L, L.pos[n]), i)
  {
    var t, p := L.pos[n], L.at[n].up.value;
    var L' := Shrunk(L, t);
    OrderAt(m, L, n);
    assert L.pos[i] != t;
    assert SameLinks(m, m', i);
    assert SunkAt(L, L', i, t) && L'.at[i].up == L.at[i].up;
    if m[i].left.Some? {
      var l := m[i].left.value;
      ChildSmaller(m, L, i, l);
      assert SunkAt(L, L', l, t) && L'.at[l].up == L.at[l].up;
    }
    if m[i].right.Some? {
      var r := m[i].right.value;
      ChildSmaller(m, L, i, r);
      assert SunkAt(L, L', r, t) && L'.at[r].up == L.at[r].up;
    }
    if L.at[i].up.Some? {
      DroppedUpLink(m, L, n, m', i);
    }
    Sunk(m, L, m', L', i, t);
  }

  /** A node other than the dropped leaf is still a child of its parent. */
  lemma DroppedUpLink<K>(m: map<nat, Cell<K>>, L: Layout, n: nat, m': map<nat, Cell<K>>, i: nat)
    requires InnerLeaf(m, L, n) && Dropped(m, n, L.at[n].up.value, m')
    requires i in m' && NodeOk(m, L, i) && L.at[i].up.Some?
    ensures var q := L.at[i].up.value; q in m' && (m'[q].left == Some(i) || m'[q].right == Some(i))
  {
    var q, p := L.at[i].up.value, L.at[n].up.value;
    assert q != n && q in m';
    if q != p {
      assert SameLinks(m, m', q);
    }
  }

  lemma DropNodes<K>(m: map<nat, Cell<K>>, root: Option<nat>, L: Layout, n: nat, m': map<nat, Cell<K>>)
    requires Shaped(m, root, L) && InnerLeaf(m, L, n) && Dropped(m, n, L.at[n].up.value, m')
    requires Covers(m', Shrunk(L, L.pos[n]))
    ensures forall i | i in m' :: NodeOk(m', Shrunk(L, L.pos[n]), i)
  {
    var p := L.at[n].up.value;
    assert NodeOk(m, L, n) && NodeOk(m, L, p);
    forall i | i in m' ensures NodeOk(m', Shrunk(L, L.pos[n]), i) {
      if i == p {
        DropAtParent(m, L, n, m');
      } else {
        assert NodeOk(m, L, i);
        DropElsewhere(m, L, n, m', i);
      }
    }
  }

  lemma DropRoot<K>(m: map<nat, Cell<K>>, root: Option<nat>, L: Layout, n: nat, m': map<nat, Cell<K>>)
    requires Indexed(m, L) && RootOk(m, root, L) && InnerLeaf(m, L, n) && Dropped(m, n, L.at[n].up.value, m')
    requires Covers(m', Shrunk(L, L.pos[n]))
    ensures RootOk(m', root, Shrunk(L, L.pos[n]))
  {
    var t := L.pos[n];
    var L' := Shrunk(L, t);
    assert SunkAt(L, L', root.value, t);
    forall i | i in m' && L'.at[i].up == None ensures root == Some(i) {
      assert L'.at[i].up == L.at[i].up;
    }
  }

  lemma DropLinked<K>(m: map<nat, Cell<K>>, L: Layout, n: nat, m': map<nat, Cell<K>>)
    requires InnerLeaf(m, L, n) && Linked(m, L) && m'.Keys == m.Keys - {n}
    requires forall i | i in m' :: m'[i].parent == m[i].parent
    requires Covers(m', Shrunk(L, L.pos[n]))
    ensures Linked(m', Shrunk(L, L.pos[n]))
  {
    var L' := Shrunk(L, L.pos[n]);
    forall i | i in m' ensures m'[i].parent == L'.at[i].up {
      assert L'.at[i].up == L.at[i].up;
    }
  }

  /**
   * Unhooking a leaf `n` from its parent removes exactly its slot from the
   * in-order and leaves a tree with the same root.
   */
  lemma DropShaped<K>(m: map<nat, Cell<K>>, root: Option<nat>, L: Layout, n: nat, m': map<nat, Cell<K>>)
    requires Shaped(m, root, L) && InnerLeaf(m, L, n) && Dropped(m, n, L.at[n].up.value, m')
    ensures L.pos[n] < |L.order|
    ensures Shaped(m', root, Shrunk(L, L.pos[n]))
    ensures Keys(m', Shrunk(L, L.pos[n])) == Keys(m, L)[..L.pos[n]] + Keys(m, L)[L.pos[n] + 1..]
    ensures Linked(m, L) && (forall i | i in m' :: m'[i].parent == m[i].parent) ==>
      Linked(m', Shrunk(L, L.pos[n]))
  {
    ShrunkIndexed(m, L, n, m');
    DropNodes(m, root, L, n, m');
    DropRoot(m, root, L, n, m');
    ShrunkKeys(m, L, n, m');
    if Linked(m, L) && (forall i | i in m' :: m'[i].parent == m[i].parent) {
      DropLinked(m, L, n, m');
    }
  }

  /** Removing a leaf that is the root empties the tree. */
  lemma DropLastShaped<K>(m: map<nat, Cell<K>>, root: Option<nat>, L: Layout, n: nat)
    requires Shaped(m, root, L) && n in m && m[n].left.None? && m[n].right.None? && L.at[n].up.None?
    ensures m.Keys == {n} && L.order == [n] && Keys(m, L) == [m[n].key]
  {
    assert root == Some(n) && NodeOk(m, L, n);
    forall i | i in m ensures i == n {
      OrderAt(m, L, i);
    }
  }

  // ---------------------------------------------------------------------
  // A node taking over its only child.

  /** Node `n` has exactly one child, `c`. */
  ghost predicate OnlyChild<K>(m: map<nat, Cell<K>>, L: Layout, n: nat, c: nat)
  {
    && Indexed(m, L) && n in m && c in m
    && ((m[n].left == Some(c) && m[n].right.None?) || (m[n].right == Some(c) && m[n].left.None?))
  }

  /**
   * `m'` is `m` after `n` copied the key and both links of its only child
   * `c`, which is gone; every other key and link is as before.
   */
  ghost predicate Absorbed<K>(m: map<nat, Cell<K>>, n: nat, c: nat, m': map<nat, Cell<K>>)
    requires n in m && c in m
  {
    && m'.Keys == m.Keys - {c} && n in m'
    && m'[n].key == m[c].key && m'[n].left == m[c].left && m'[n].right == m[c].right
    && (forall i | i in m' && i != n :: m'[i].key == m[i].key)
    && (forall i {:trigger SameLinks(m, m', i)} | i in m' && i != n :: SameLinks(m, m', i))
  }

  /**
   * The layout after `n` takes over its only child `c`: the slot of `n`
   * leaves the in-order, `n` moves to the slot `c` had, and the children of
   * `c` now hang below `n`.
   */
  ghost function Absorbing(L: Layout, n: nat, c: nat): Layout
    requires n in L.pos && c in L.pos && L.pos[n] < |L.order| && L.pos[c] < |L.order|
    requires L.pos[c] != L.pos[n]
  {
    var t := L.pos[n];
    var pc := Sink(L.pos[c], t);
    Layout((L.order[..t] + L.order[t + 1..])[pc := n],
           (map i | i in L.pos :: Sink(L.pos[i], t))[n := pc],
           map i | i in L.at :: Span(Sink(L.at[i].lo, t), Sink(L.at[i].hi, t),
                                     if L.at[i].up == Some(c) then Some(n) else L.at[i].up))
  }

  /** The precondition of `Absorbing`, from the shape of the tree. */
  lemma AbsorbSlots<K>(m: map<nat, Cell<K>>, L: Layout, n: nat, c: nat)
    requires OnlyChild(m, L, n, c) && NodeOk(m, L, n)
    ensures L.pos[n] < |L.order| && L.pos[c] < |L.order| && L.pos[c] != L.pos[n]
  {
    OrderAt(m, L, n);
    OrderAt(m, L, c);
  }

  lemma AbsorbOrder<K>(m: map<nat, Cell<K>>, L: Layout, n: nat, c: nat, m': map<nat, Cell<K>>)
    requires OnlyChild(m, L, n, c) && Absorbed(m, n, c, m')
    requires L.pos[n] < |L.order| && L.pos[c] < |L.order| && L.pos[c] != L.pos[n]
    ensures var L' := Absorbing(L, n, c);
      forall j | 0 <= j < |L'.order| :: L'.order[j] in m' && L'.pos[L'.order[j]] == j
  {
    var t := L.pos[n];
    var pc := Sink(L.pos[c], t);
    var L' := Absorbing(L, n, c);
    forall j | 0 <= j < |L'.order| ensures L'.order[j] in m' && L'.pos[L'.order[j]] == j {
      if j != pc {
        var k := if j < t then j else j + 1;
        assert L'.order[j] == L.order[k];
        assert L.order[k] != c && L.order[k] != n;
      }
    }
  }

  lemma AbsorbPos<K>(m: map<nat, Cell<K>>, L: Layout, n: nat, c: nat, m': map<nat, Cell<K>>)
    requires OnlyChild(m, L, n, c) && Absorbed(m, n, c, m')
    requires L.pos[n] < |L.order| && L.pos[c] < |L.order| && L.pos[c] != L.pos[n]
    ensures var L' := Absorbing(L, n, c);
      forall i | i in m' :: L'.pos[i] < |L'.order| && L'.order[L'.pos[i]] == i
  {
    var t := L.pos[n];
    var pc := Sink(L.pos[c], t);
    var L' := Absorbing(L, n, c);
    forall i | i in m' ensures L'.pos[i] < |L'.order| && L'.order[L'.pos[i]] == i {
      if i != n {
        var p := L.pos[i];
        assert i != c && p != L.pos[c];
        if p < t {
          assert L'.order[p] == L.order[p];
        } else {
          assert L'.order[p - 1] == L.order[p];
        }
      }
    }
  }

  lemma AbsorbIndexed<K>(m: map<nat, Cell<K>>, L: Layout, n: nat, c: nat, m': map<nat, Cell<K>>)
    requires OnlyChild(m, L, n, c) && Absorbed(m, n, c, m') && NodeOk(m, L, n)
    ensures L.pos[n] < |L.order| && L.pos[c] < |L.order| && L.pos[c] != L.pos[n]
    ensures Indexed(m', Absorbing(L, n, c))
  {
    AbsorbSlots(m, L, n, c);
    AbsorbOrder(m, L, n, c, m');
    AbsorbPos(m, L, n, c, m');
  }

  lemma AbsorbAtNode<K>(m: map<nat, Cell<K>>, L: Layout, n: nat, c: nat, m': map<nat, Cell<K>>)
    requires OnlyChild(m, L, n, c) && Absorbed(m, n, c, m') && NodeOk(m, L, n) && NodeOk(m, L, c)
    requires L.pos[n] < |L.order| && L.pos[c] < |L.order| && L.pos[c] != L.pos[n]
    requires Covers(m', Absorbing(L, n, c))
    ensures NodeOk(m', Absorbing(L, n, c), n)
  {
    var t := L.pos[n];
    var L' := Absorbing(L, n, c);
    NotOwnChild(m, L, c);
    assert L.at[n].up != Some(c) by {
      ChildSmaller(m, L, n, c);
    }
    assert L'.at[n] == Span(Sink(L.at[n].lo, t), Sink(L.at[n].hi, t), L.at[n].up);
    if m[c].left.Some? {
      var g := m[c].left.value;
      assert L'.at[g] == Span(Sink(L.at[g].lo, t), Sink(L.at[g].hi, t), Some(n));
    }
    if m[c].right.Some? {
      var g := m[c].right.value;
      assert L'.at[g] == Span(Sink(L.at[g].lo, t), Sink(L.at[g].hi, t), Some(n));
    }
    if L.at[n].up.Some? {
      var q := L.at[n].up.value;
      NotOwnChild(m, L, n);
      assert q != n && q != c;
      assert SameLinks(m, m', q);
    }
  }

  /** The children of a node other than `n` keep their bounds (shifted) and their parent. */
  lemma AbsorbBelow<K>(m: map<nat, Cell<K>>, L: Layout, n: nat, c: nat, i: nat)
    requires OnlyChild(m, L, n, c) && i in m && NodeOk(m, L, i) && i != c
    requires L.pos[n] < |L.order| && L.pos[c] < |L.order| && L.pos[c] != L.pos[n]
    ensures var L', t := Absorbing(L, n, c), L.pos[n];
      && (m[i].left.Some? ==> var l := m[i].left.value;
            l in L'.at && SunkAt(L, L', l, t) && L'.at[l].up == Some(i))
      && (m[i].right.Some? ==> var r := m[i].right.value;
            r in L'.at && SunkAt(L, L', r, t) && L'.at[r].up == Some(i))
  {
  }

  /** A node other than `n` is still the child of its recorded parent. */
  lemma AbsorbAbove<K>(m: map<nat, Cell<K>>, L: Layout, n: nat, c: nat, m': map<nat, Cell<K>>, i: nat)
    requires OnlyChild(m, L, n, c) && Absorbed(m, n, c, m') && i in m && NodeOk(m, L, i)
    requires L.pos[n] < |L.order| && L.pos[c] < |L.order| && L.pos[c] != L.pos[n]
    requires i in m' && i != n
    ensures var L' := Absorbing(L, n, c);
      i in L'.at && (L'.at[i].up.Some? ==> var q := L'.at[i].up.value;
        q in m' && (m'[q].left == Some(i) || m'[q].right == Some(i)))
  {
    if L.at[i].up.Some? {
      var q := L.at[i].up.value;
      assert m[q].left == Some(i) || m[q].right == Some(i);
      if q != c {
        assert q != n;
        assert SameLinks(m, m', q);
      }
    }
  }

  lemma AbsorbElsewhere<K>(m: map<nat, Cell<K>>, L: Layout, n: nat, c: nat, m': map<nat, Cell<K>>, i: nat)
    requires OnlyChild(m, L, n, c) && Absorbed(m, n, c, m') && NodeOk(m, L, n) && NodeOk(m, L, c)
    requires L.pos[n] < |L.order| && L.pos[c] < |L.order| && L.pos[c] != L.pos[n]
    requires Covers(m', Absorbing(L, n, c))
    requires i in m' && i != n && NodeOk(m, L, i)
    ensures NodeOk(m', Absorbing(L, n, c), i)
  {
    var t := L.pos[n];
    var L' := Absorbing(L, n, c);
    OrderAt(m, L, n);
    assert i != c && L.pos[i] != t;
    assert SameLinks(m, m', i);
    assert SunkAt(L, L', i, t);
    AbsorbBelow(m, L, n, c, i);
    AbsorbAbove(m, L, n, c, m', i);
    assert |L'.order| + 1 == |L.order|;
    assert L'.pos[i] == Sink(L.pos[i], t);
    Sunk(m, L, m', L', i, t);
  }


  lemma AbsorbNodes<K>(m: map<nat, Cell<K>>, root: Option<nat>, L: Layout, n: nat, c: nat, m': map<nat, Cell<K>>)
    requires Shaped(m, root, L) && OnlyChild(m, L, n, c) && Absorbed(m, n, c, m')
    requires L.pos[n] < |L.order| && L.pos[c] < |L.order| && L.pos[c] != L.pos[n]
    requires Covers(m', Absorbing(L, n, c))
    ensures forall i | i in m' :: NodeOk(m', Absorbing(L, n, c), i)
  {
    assert NodeOk(m, L, n) && NodeOk(m, L, c);
    forall i | i in m' ensures NodeOk(m', Absorbing(L, n, c), i) {
      if i == n {
        AbsorbAtNode(m, L, n, c, m');
      } else {
        assert NodeOk(m, L, i);
        AbsorbElsewhere(m, L, n, c, m', i);
      }
    }
  }

  lemma AbsorbRoot<K>(m: map<nat, Cell<K>>, root: Option<nat>, L: Layout, n: nat, c: nat, m': map<nat, Cell<K>>)
    requires Indexed(m, L) && RootOk(m, root, L) && OnlyChild(m, L, n, c) && Absorbed(m, n, c, m')
    requires NodeOk(m, L, n) && NodeOk(m, L, c)
    requires L.pos[n] < |L.order| && L.pos[c] < |L.order| && L.pos[c] != L.pos[n]
    requires Covers(m', Absorbing(L, n, c))
    ensures RootOk(m', root, Absorbing(L, n, c))
  {
    var t := L.pos[n];
    var L' := Absorbing(L, n, c);
    ChildSmaller(m, L, n, c);
    var r := root.value;
    assert r != c;
    assert SunkAt(L, L', r, t) && L'.at[r].up == L.at[r].up;
    forall i | i in m' && L'.at[i].up == None ensures root == Some(i) {
      assert L.at[i].up == None;
    }
  }

  lemma AbsorbKeys<K>(m: map<nat, Cell<K>>, L: Layout, n: nat, c: nat, m': map<nat, Cell<K>>)
    requires Indexed(m, L) && OnlyChild(m, L, n, c) && Absorbed(m, n, c, m')
    requires L.pos[n] < |L.order| && L.pos[c] < |L.order| && L.pos[c] != L.pos[n]
    requires Listed(m', Absorbing(L, n, c))
    ensures Keys(m', Absorbing(L, n, c)) == Keys(m, L)[..L.pos[n]] + Keys(m, L)[L.pos[n] + 1..]
  {
    var t := L.pos[n];
    var pc := Sink(L.pos[c], t);
    var L' := Absorbing(L, n, c);
    var s, s' := Keys(m, L), Keys(m', L');
    var e := s[..t] + s[t + 1..];
    assert |e| == |s'|;
    forall j | 0 <= j < |s'| ensures s'[j] == e[j] {
      var k := if j < t then j else j + 1;
      assert e[j] == s[k];
      if j == pc {
        assert k == L.pos[c] && L'.order[j] == n;
      } else {
        var x := L.order[k];
        assert L'.order[j] == x && x != n && x != c;
      }
    }
  }

  lemma AbsorbLinked<K>(m: map<nat, Cell<K>>, L: Layout, n: nat, c: nat, m': map<nat, Cell<K>>)
    requires Indexed(m, L) && OnlyChild(m, L, n, c) && Absorbed(m, n, c, m') && Linked(m, L)
    requires NodeOk(m, L, n) && NodeOk(m, L, c)
    requires L.pos[n] < |L.order| && L.pos[c] < |L.order| && L.pos[c] != L.pos[n]
    requires Covers(m', Absorbing(L, n, c))
    requires m'[n].parent == m[n].parent
    requires forall i | i in m' && i != n ::
      m'[i].parent == if m[i].parent == Some(c) then Some(n) else m[i].parent
    ensures Linked(m', Absorbing(L, n, c))
  {
    var L' := Absorbing(L, n, c);
    ChildSmaller(m, L, n, c);
    if L.at[n].up == Some(c) {
      ChildSmaller(m, L, c, n);
      assert false;
    }
    forall i | i in m' ensures m'[i].parent == L'.at[i].up {
      assert m[i].parent == L.at[i].up;
    }
  }

  /**
   * Node `n` copying the key and links of its only child `c` removes the
   * slot of `n` from the in-order (the key of `c` now sits where `c` was)
   * and leaves a tree with the same root.
   */
  lemma AbsorbShaped<K>(m: map<nat, Cell<K>>, root: Option<nat>, L: Layout, n: nat, c: nat, m': map<nat, Cell<K>>)
    requires Shaped(m, root, L) && OnlyChild(m, L, n, c) && Absorbed(m, n, c, m')
    ensures L.pos[n] < |L.order| && L.pos[c] < |L.order| && L.pos[c] != L.pos[n]
    ensures Shaped(m', root, Absorbing(L, n, c))
    ensures Keys(m', Absorbing(L, n, c)) == Keys(m, L)[..L.pos[n]] + Keys(m, L)[L.pos[n] + 1..]
    ensures Linked(m, L) && m'[n].parent == m[n].parent
      && (forall i | i in m' && i != n :: m'[i].parent == if m[i].parent == Some(c) then Some(n) else m[i].parent)
      ==> Linked(m', Absorbing(L, n, c))
  {
    assert NodeOk(m, L, n) && NodeOk(m, L, c);
    AbsorbIndexed(m, L, n, c, m');
    AbsorbNodes(m, root, L, n, c, m');
    AbsorbRoot(m, root, L, n, c, m');
    AbsorbKeys(m, L, n, c, m');
    if Linked(m, L) && m'[n].parent == m[n].parent
      && (forall i | i in m' && i != n :: m'[i].parent == if m[i].parent == Some(c) then Some(n) else m[i].parent)
    {
      AbsorbLinked(m, L, n, c, m');
    }
  }

  // ---------------------------------------------------------------------
  // The three edits as steps on an arena; each returns the new layout.

  /** Hanging the fresh leaf `c` (id `n`) below `q` enters its key just before or just after `q`. */
  lemma AttachStep<K>(m: map<nat, Cell<K>>, root: Option<nat>, L: Layout, q: nat, n: nat, left: bool, c: Cell<K>)
    returns (L': Layout)
    requires Shaped(m, root, L) && FreeSlot(m, L, q, n, left) && c.left.None? && c.right.None?
    ensures var m' := m[q := if left then m[q].(left := Some(n)) else m[q].(right := Some(n))][n := c];
      var t := if left then L.pos[q] else L.pos[q] + 1;
      && t <= |L.order| && |L'.order| == |L.order| + 1
      && Shaped(m', root, L')
      && Keys(m', L') == Keys(m, L)[..t] + [c.key] + Keys(m, L)[t..]
      && (Linked(m, L) && c.parent == Some(q) ==> Linked(m', L'))
  {
    AttachShaped(m, root, L, q, n, left, c);
    L' := Attached(L, n, Slot(m, L, q, left), left, q);
  }

  /** Unhooking the leaf `n` from its parent takes its key out of the in-order. */
  lemma DropStep<K>(m: map<nat, Cell<K>>, root: Option<nat>, L: Layout, n: nat) returns (L': Layout)
    requires Shaped(m, root, L) && InnerLeaf(m, L, n)
    ensures var p := L.at[n].up.value;
      var m' := m[p := RemoveChild(m[p], n)] - {n};
      var t := L.pos[n];
      && t < |L.order| && |L'.order| + 1 == |L.order|
      && Shaped(m', root, L')
      && Keys(m', L') == Keys(m, L)[..t] + Keys(m, L)[t + 1..]
      && (forall i | i in m' :: L'.pos[i] == Sink(L.pos[i], t))
      && (Linked(m, L) ==> Linked(m', L'))
  {
    var p := L.at[n].up.value;
    var m' := m[p := RemoveChild(m[p], n)] - {n};
    assert NodeOk(m, L, n);
    assert Dropped(m, n, p, m');
    DropShaped(m, root, L, n, m');
    L' := Shrunk(L, L.pos[n]);
  }

  /** The arena after node `n` copied the key and both links of its only child `c`. */
  function TookOver<K>(m: map<nat, Cell<K>>, n: nat, c: nat): map<nat, Cell<K>>
    requires n in m && c in m
  {
    (m - {c})[n := m[n].(key := m[c].key, left := m[c].left, right := m[c].right)]
  }

  /** `m` with node `x`, if there is one, re-parented to `p`. */
  function Reparent<K>(m: map<nat, Cell<K>>, x: Option<nat>, p: nat): map<nat, Cell<K>>
  {
    if x.Some? && x.value in m then m[x.value := m[x.value].(parent := Some(p))] else m
  }

  lemma TookOverAbsorbed<K>(m: map<nat, Cell<K>>, n: nat, c: nat)
    requires n in m && c in m && n != c
    ensures Absorbed(m, n, c, TookOver(m, n, c))
  {
    var m' := TookOver(m, n, c);
    forall i | i in m' && i != n ensures SameLinks(m, m', i) {
    }
  }

  /** Re-parenting the children of `c` to `n` keeps every key and child link. */
  lemma RelinkedAbsorbed<K>(m: map<nat, Cell<K>>, n: nat, c: nat)
    requires n in m && c in m && n != c && m[c].left != Some(n) && m[c].right != Some(n)
    ensures var m' := Reparent(Reparent(TookOver(m, n, c), m[c].right, n), m[c].left, n);
      && Absorbed(m, n, c, m') && m'[n].parent == m[n].parent
  {
    var m1 := TookOver(m, n, c);
    var m' := Reparent(Reparent(m1, m[c].right, n), m[c].left, n);
    forall i | i in m' && i != n ensures SameLinks(m, m', i) && m'[i].key == m[i].key {
    }
  }

  lemma AbsorbSlot<K>(m: map<nat, Cell<K>>, root: Option<nat>, L: Layout, n: nat, c: nat)
    requires Shaped(m, root, L) && n in m && c in m
    requires (m[n].left == Some(c) && m[n].right.None?) || (m[n].right == Some(c) && m[n].left.None?)
    ensures OnlyChild(m, L, n, c) && NodeOk(m, L, n) && NodeOk(m, L, c) && n != c
    ensures m[c].left != Some(n) && m[c].right != Some(n)
    ensures L.at[n].lo <= L.pos[c] < L.at[n].hi
  {
    assert NodeOk(m, L, n) && NodeOk(m, L, c);
    ChildSmaller(m, L, n, c);
    if m[c].left == Some(n) || m[c].right == Some(n) {
      ChildSmaller(m, L, c, n);
    }
  }

  /**
   * Node `n` taking over its only child `c` (`removeNodeWithLeftOnly` and its
   * mirror) takes the key of `n` out of the in-order; the key of `c` stays
   * where it was.
   */
  lemma AbsorbStep<K>(m: map<nat, Cell<K>>, root: Option<nat>, L: Layout, n: nat, c: nat)
    returns (L': Layout)
    requires Shaped(m, root, L) && n in m && c in m
    requires (m[n].left == Some(c) && m[n].right.None?) || (m[n].right == Some(c) && m[n].left.None?)
    ensures var m' := TookOver(m, n, c);
      var t := L.pos[n];
      && t < |L.order| && |L'.order| + 1 == |L.order| && L.at[n].lo <= L.pos[c] < L.at[n].hi
      && Shaped(m', root, L')
      && Keys(m', L') == Keys(m, L)[..t] + Keys(m, L)[t + 1..]
      && (forall i | i in m' && i != n :: L'.pos[i] == Sink(L.pos[i], t))
  {
    AbsorbSlot(m, root, L, n, c);
    TookOverAbsorbed(m, n, c);
    AbsorbShaped(m, root, L, n, c, TookOver(m, n, c));
    L' := Absorbing(L, n, c);
  }

  /** `AbsorbStep` for trees with parent links: the children of `c` are re-parented to `n`. */
  lemma AbsorbRelinkStep<K>(m: map<nat, Cell<K>>, root: Option<nat>, L: Layout, n: nat, c: nat)
    returns (L': Layout)
    requires Shaped(m, root, L) && Linked(m, L) && n in m && c in m
    requires (m[n].left == Some(c) && m[n].right.None?) || (m[n].right == Some(c) && m[n].left.None?)
    ensures var m' := Reparent(Reparent(TookOver(m, n, c), m[c].right, n), m[c].left, n);
      var t := L.pos[n];
      && t < |L.order| && |L'.order| + 1 == |L.order| && L.at[n].lo <= L.pos[c] < L.at[n].hi
      && Shaped(m', root, L') && Linked(m', L')
      && Keys(m', L') == Keys(m, L)[..t] + Keys(m, L)[t + 1..]
      && (forall i | i in m' && i != n :: L'.pos[i] == Sink(L.pos[i], t))
  {
    AbsorbSlot(m, root, L, n, c);
    RelinkedAbsorbed(m, n, c);
    RelinkedParents(m, root, L, n, c);
    AbsorbShaped(m, root, L, n, c, Reparent(Reparent(TookOver(m, n, c), m[c].right, n), m[c].left, n));
    L' := Absorbing(L, n, c);
  }

  /** After the re-parenting, a node's parent is `n` exactly where it used to be `c`. */
  lemma RelinkedParents<K>(m: map<nat, Cell<K>>, root: Option<nat>, L: Layout, n: nat, c: nat)
    requires Shaped(m, root, L) && Linked(m, L) && n in m && c in m
    requires m[n].left == Some(c) || m[n].right == Some(c)
    ensures var m' := Reparent(Reparent(TookOver(m, n, c), m[c].right, n), m[c].left, n);
      forall i | i in m' && i != n :: m'[i].parent == if m[i].parent == Some(c) then Some(n) else m[i].parent
  {
    var m' := Reparent(Reparent(TookOver(m, n, c), m[c].right, n), m[c].left, n);
    assert NodeOk(m, L, c);
    forall i | i in m' && i != n
      ensures m'[i].parent == if m[i].parent == Some(c) then Some(n) else m[i].parent
    {
      if m[i].parent == Some(c) {
        assert NodeOk(m, L, i);
      }
    }
  }
}
