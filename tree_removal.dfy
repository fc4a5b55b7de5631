/**
 * What deleting one node does to the in-order, shared by the trees whose
 * `remove` unhooks a leaf, lets a node take over its only child, or copies
 * the key of the node `findParentOfMinimum` leads to.
 */
module TreeRemoval {
  import opened Common
  import opened Arena
  import opened TreeEdit
  import opened TreeSearch

  /**
   * The removal of a node with two children is only order-preserving when the
   * right child has a left child; otherwise the minimum search stops at the
   * node itself and the left child is taken instead.
   */
  ghost predicate Plain(m: map<nat, Cell<int>>, n: nat)
    requires n in m
  {
    !(m[n].left.Some? && m[n].right.Some? && m[n].right.value in m && m[m[n].right.value].left.None?)
  }

  /**
   * `m', L'` is what deleting node `n` leaves of `m, L`: one slot fewer, the
   * key of `n` gone from the multiset, and every node outside the subtree
   * of `n` still there with its key, one index lower when it came after
   * `n`. Unless `n` is the two-children case whose right child has no left
   * child, the in-order is the old one without the index of `n`.
   */
  ghost predicate Deleted(m: map<nat, Cell<int>>, L: Layout, n: nat, m': map<nat, Cell<int>>, L': Layout)
    requires Indexed(m, L) && Indexed(m', L') && n in m
  {
    && |L'.order| + 1 == |L.order|
    && multiset(Keys(m', L')) == multiset(Keys(m, L)) - multiset{m[n].key}
    && (Plain(m, n) ==> Keys(m', L') == Keys(m, L)[..L.pos[n]] + Keys(m, L)[L.pos[n] + 1..])
    && (forall i | i in m && !(L.at[n].lo <= L.pos[i] < L.at[n].hi) ::
          i in m' && m'[i].key == m[i].key && L'.pos[i] == Sink(L.pos[i], L.pos[n]))
  }

  lemma ChildrenIn(m: map<nat, Cell<int>>, root: Option<nat>, L: Layout, n: nat)
    requires Shaped(m, root, L) && n in m
    ensures m[n].left.Some? ==> m[n].left.value in m
    ensures m[n].right.Some? ==> m[n].right.value in m
  {
    assert NodeOk(m, L, n);
  }

  lemma ParentIn(m: map<nat, Cell<int>>, root: Option<nat>, L: Layout, n: nat)
    requires Shaped(m, root, L) && n in m
    ensures L.at[n].up.Some? ==> L.at[n].up.value in m
  {
    assert NodeOk(m, L, n);
  }

  /**
   * A deletion that takes exactly the slot of `n` out of the in-order and
   * leaves every node outside its subtree in place is a `Deleted`.
   */
  lemma SlotDeleted(m: map<nat, Cell<int>>, L: Layout, n: nat, m': map<nat, Cell<int>>, L': Layout)
    requires Indexed(m, L) && Indexed(m', L') && n in m && L.at[n].lo <= L.pos[n] < L.at[n].hi
    requires |L'.order| + 1 == |L.order|
    requires Keys(m', L') == Keys(m, L)[..L.pos[n]] + Keys(m, L)[L.pos[n] + 1..]
    requires forall i | i in m && i != n && !(L.at[n].lo <= L.pos[i] < L.at[n].hi) ::
      i in m' && m'[i].key == m[i].key && L'.pos[i] == Sink(L.pos[i], L.pos[n])
    ensures Deleted(m, L, n, m', L')
  {
    KeyAt(m, L, n);
    MultisetDelete(Keys(m, L), L.pos[n]);
  }

  /** Dropping a leaf keeps every other node and its key. */
  lemma DropKept(m: map<nat, Cell<int>>, L: Layout, n: nat, p: nat, m': map<nat, Cell<int>>, L': Layout)
    requires Indexed(m, L) && Indexed(m', L') && n in m && p in m && m' == m[p := RemoveChild(m[p], n)] - {n}
    requires forall i | i in m' :: L'.pos[i] == Sink(L.pos[i], L.pos[n])
    ensures forall i | i in m && i != n :: i in m' && m'[i].key == m[i].key && L'.pos[i] == Sink(L.pos[i], L.pos[n])
  {
  }

  /** Taking over the only child `c` keeps every node outside the subtree of `n` and its key. */
  lemma TookOverKept(m: map<nat, Cell<int>>, L: Layout, n: nat, c: nat, m': map<nat, Cell<int>>, L': Layout)
    requires Indexed(m, L) && Indexed(m', L') && n in m && c in m && m' == TookOver(m, n, c)
    requires L.at[n].lo <= L.pos[c] < L.at[n].hi
    requires forall i | i in m' && i != n :: L'.pos[i] == Sink(L.pos[i], L.pos[n])
    ensures forall i | i in m && i != n && !(L.at[n].lo <= L.pos[i] < L.at[n].hi) ::
      i in m' && m'[i].key == m[i].key && L'.pos[i] == Sink(L.pos[i], L.pos[n])
  {
  }

  /**
   * Node `x` lies in the subtree of `n` but away from `n` itself and, except
   * in the case `Plain` excludes, holds the in-order successor of `n` and has
   * no left child.
   */
  ghost predicate SuccessorOf(m: map<nat, Cell<int>>, L: Layout, n: nat, x: nat)
    requires Indexed(m, L) && n in m && x in m
  {
    && L.at[n].lo <= L.at[x].lo && L.at[x].hi <= L.at[n].hi
    && !(L.at[x].lo <= L.pos[n] < L.at[x].hi)
    && L.at[x].lo <= L.pos[x] < L.at[x].hi
    && (Plain(m, n) ==> L.pos[x] == L.pos[n] + 1 && m[x].left.None?)
  }

  /**
   * What `findParentOfMinimum(node.right, node)` leads to for a node with two
   * children: its left child `x` lies strictly inside the subtree of `node`,
   * away from `node` itself, and is the in-order successor of `node` unless
   * the right child has no left child (then `x` is the left child of `node`).
   */
  lemma SuccessorChoice(m: map<nat, Cell<int>>, root: Option<nat>, L: Layout, n: nat)
    requires Shaped(m, root, L) && n in m && m[n].left.Some? && m[n].right.Some?
    ensures m[n].right.value in m && L.at[m[n].right.value].up == Some(n)
    ensures var p := FindParentOfMinimum(m, root, L, m[n].right.value, n);
      && m[p].left.Some? && var x := m[p].left.value;
      && x in m && L.at[x].up == Some(p)
      && L.at[x].hi - L.at[x].lo < L.at[n].hi - L.at[n].lo
      && SuccessorOf(m, L, n, x)
  {
    assert NodeOk(m, L, n);
    var r := m[n].right.value;
    assert NodeOk(m, L, r);
    var p := FindParentOfMinimum(m, root, L, r, n);
    var x := m[p].left.value;
    assert NodeOk(m, L, x);
    if m[r].left.Some? {
      Nested(m, root, L, r, x);
    }
  }

  lemma SuccessorDeleted(m: map<nat, Cell<int>>, L: Layout, n: nat, x: nat,
                         m1: map<nat, Cell<int>>, L1: Layout, m': map<nat, Cell<int>>)
    requires Indexed(m, L) && n in m && x in m && m[n].left.Some? && m[n].right.Some?
    requires L.at[n].lo <= L.pos[n] < L.at[n].hi && SuccessorOf(m, L, n, x)
    requires Indexed(m1, L1) && Deleted(m, L, x, m1, L1)
    requires n in m1 && m' == m1[n := m1[n].(key := m[x].key)] && Indexed(m', L1)
    requires L1.pos[n] < |L1.order| && Keys(m', L1) == Keys(m1, L1)[L1.pos[n] := m[x].key]
    ensures Deleted(m, L, n, m', L1)
  {
    SuccessorKeys(m, L, n, x, m1, L1, m');
    SuccessorKept(m, L, n, x, m1, L1, m');
  }

  /** The keys after the deletion of `x` and the re-keying of `n`, as a multiset and, when `Plain`, as a sequence. */
  lemma SuccessorKeys(m: map<nat, Cell<int>>, L: Layout, n: nat, x: nat,
                      m1: map<nat, Cell<int>>, L1: Layout, m': map<nat, Cell<int>>)
    requires Indexed(m, L) && n in m && x in m && m[n].left.Some? && m[n].right.Some?
    requires L.at[n].lo <= L.pos[n] < L.at[n].hi && SuccessorOf(m, L, n, x)
    requires Indexed(m1, L1) && Deleted(m, L, x, m1, L1)
    requires n in m1 && m' == m1[n := m1[n].(key := m[x].key)] && Indexed(m', L1)
    requires L1.pos[n] < |L1.order| && Keys(m', L1) == Keys(m1, L1)[L1.pos[n] := m[x].key]
    ensures multiset(Keys(m', L1)) == multiset(Keys(m, L)) - multiset{m[n].key}
    ensures Plain(m, n) ==> Keys(m', L1) == Keys(m, L)[..L.pos[n]] + Keys(m, L)[L.pos[n] + 1..]
  {
    KeyAt(m, L, n);
    KeyAt(m, L, x);
    KeyAt(m1, L1, n);
    if Plain(m, n) {
      assert Plain(m, x);
    }
    SuccessorSlots(Keys(m, L), Keys(m1, L1), L.pos[n], L.pos[x], L1.pos[n], Plain(m, n));
  }

  /**
   * The in-order keys of a successor deletion: `s1` is `s` without index `d`,
   * and the slot `t1` that held `s[t]` is overwritten by `s[d]`.
   */
  lemma SuccessorSlots(s: seq<int>, s1: seq<int>, t: nat, d: nat, t1: nat, plain: bool)
    requires t < |s| && d < |s| && t1 < |s1| && s1[t1] == s[t]
    requires multiset(s1) == multiset(s) - multiset{s[d]}
    requires plain ==> d == t + 1 && t1 == t && s1 == s[..d] + s[d + 1..]
    ensures multiset(s1[t1 := s[d]]) == multiset(s) - multiset{s[t]}
    ensures plain ==> s1[t1 := s[d]] == s[..t] + s[t + 1..]
  {
    OverwriteByDeleted(s, s1, t, d, t1);
    if plain {
      OverwriteByNext(s, t);
    }
  }

  /** Every node outside the subtree of `n` survives the deletion of `x` and the re-keying of `n`. */
  lemma SuccessorKept(m: map<nat, Cell<int>>, L: Layout, n: nat, x: nat,
                      m1: map<nat, Cell<int>>, L1: Layout, m': map<nat, Cell<int>>)
    requires Indexed(m, L) && n in m && x in m && SuccessorOf(m, L, n, x)
    requires Indexed(m1, L1) && Deleted(m, L, x, m1, L1)
    requires n in m1 && m' == m1[n := m1[n].(key := m[x].key)]
    requires L.at[n].lo <= L.pos[n] < L.at[n].hi
    ensures forall i | i in m && !(L.at[n].lo <= L.pos[i] < L.at[n].hi) ::
      i in m' && m'[i].key == m[i].key && L1.pos[i] == Sink(L.pos[i], L.pos[n])
  {
    forall i | i in m && !(L.at[n].lo <= L.pos[i] < L.at[n].hi)
      ensures i in m' && m'[i].key == m[i].key && L1.pos[i] == Sink(L.pos[i], L.pos[n])
    {
      assert !(L.at[x].lo <= L.pos[i] < L.at[x].hi);
    }
  }
}
