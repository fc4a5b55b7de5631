/**
 * The splay tree. Its nodes keep a parent link, and every successful
 * `contains` (and so every `add` and `remove`) rotates the node it found up
 * to the root by zig, zig-zig and zig-zag steps. Removal is the
 * plain-binary-search-tree removal with parent links kept up to date.
 *
 * The modular generation and the self-contained one implement the same
 * algorithm line for line, so one class models both.
 */
module SplayTree {
  import opened Common
  import opened Arena
  import opened TreeRotation
  import opened TreeEdit
  import opened TreeSearch
  import opened TreeRemoval
  import opened Traversal

  /**
   * `m', L'` holds the nodes of `m, L` with the same keys in the same
   * in-order, and the subtree of `n` has grown: one splay step moved `n` up.
   */
  ghost predicate Raised(m: map<nat, Cell<int>>, L: Layout, m': map<nat, Cell<int>>, L': Layout, n: nat)
  {
    && Listed(m, L) && Listed(m', L')
    && m'.Keys == m.Keys && SameKeys(m, m')
    && Keys(m', L') == Keys(m, L) && L'.order == L.order && L'.pos == L.pos
    && n in L.at && n in L'.at && L'.at[n].hi - L'.at[n].lo > L.at[n].hi - L.at[n].lo
  }

  /** Two rotations, the second of which gives `n` the old span of `x`, raise `n` when `x` was above it. */
  lemma RaisedTwice(m0: map<nat, Cell<int>>, L0: Layout, m1: map<nat, Cell<int>>, L1: Layout,
                    m2: map<nat, Cell<int>>, L2: Layout, n: nat, x: nat)
    requires Listed(m0, L0) && Listed(m1, L1) && Listed(m2, L2)
    requires m1.Keys == m0.Keys && m2.Keys == m1.Keys && SameKeys(m0, m1) && SameKeys(m1, m2)
    requires Keys(m1, L1) == Keys(m0, L0) && Keys(m2, L2) == Keys(m1, L1)
    requires L1.order == L0.order && L1.pos == L0.pos && L2.order == L1.order && L2.pos == L1.pos
    requires n in L0.at && x in L0.at && n in L2.at && L2.at[n] == L0.at[x]
    requires L0.at[x].hi - L0.at[x].lo > L0.at[n].hi - L0.at[n].lo
    ensures Raised(m0, L0, m2, L2, n)
  {
  }

  /**
   * After the right rotation at `p` that starts a zig-zag, its left child
   * `n` has the span of `p` and hangs to the right of the grandparent `g`.
   */
  lemma ZagRight(m0: map<nat, Cell<int>>, r0: Option<nat>, L0: Layout, p: nat,
                 m1: map<nat, Cell<int>>, r1: Option<nat>, L1: Layout, n: nat, g: nat)
    requires Shaped(m0, r0, L0) && Linked(m0, L0) && RightTurned(m0, r0, L0, p, m1, r1, L1)
    requires n in m0 && g in m0 && m0[p].left == Some(n) && m0[p].parent == Some(g) && m0[g].right == Some(p)
    ensures n in L1.at && L1.at[n] == L0.at[p] && g in L1.at && L1.at[g] == L0.at[g]
    ensures n in m1 && g in m1 && m1[n].parent == Some(g) && m1[g].right == Some(n)
    ensures L0.at[g].hi - L0.at[g].lo > L0.at[n].hi - L0.at[n].lo
  {
    assert NodeOk(m0, L0, n) && NodeOk(m0, L0, p) && NodeOk(m0, L0, g);
    ChildSmaller(m0, L0, p, n);
    ChildSmaller(m0, L0, g, p);
    if m0[n].right.Some? {
      ChildSmaller(m0, L0, n, m0[n].right.value);
    }
  }

  /** The mirror of `ZagRight`: the left rotation at `p` that starts the other zig-zag. */
  lemma ZagLeft(m0: map<nat, Cell<int>>, r0: Option<nat>, L0: Layout, p: nat,
                m1: map<nat, Cell<int>>, r1: Option<nat>, L1: Layout, n: nat, g: nat)
    requires Shaped(m0, r0, L0) && Linked(m0, L0) && LeftTurned(m0, r0, L0, p, m1, r1, L1)
    requires n in m0 && g in m0 && m0[p].right == Some(n) && m0[p].parent == Some(g) && m0[g].left == Some(p)
    ensures n in L1.at && L1.at[n] == L0.at[p] && g in L1.at && L1.at[g] == L0.at[g]
    ensures n in m1 && g in m1 && m1[n].parent == Some(g) && m1[g].left == Some(n)
    ensures L0.at[g].hi - L0.at[g].lo > L0.at[n].hi - L0.at[n].lo
  {
    assert NodeOk(m0, L0, n) && NodeOk(m0, L0, p) && NodeOk(m0, L0, g);
    ChildSmaller(m0, L0, p, n);
    ChildSmaller(m0, L0, g, p);
    if m0[n].left.Some? {
      ChildSmaller(m0, L0, n, m0[n].left.value);
    }
  }

  // ---------------------------------------------------------------------
  // Insertion and removal with parent links.

  /** `node.left = new BinaryTreeNode(key, node)` (or `.right`) enters `key` next to `q`. */
  lemma HangStep(m: map<nat, Cell<int>>, root: Option<nat>, L: Layout, next: nat, q: nat, left: bool, key: int,
                 m': map<nat, Cell<int>>)
    returns (L': Layout)
    requires Shaped(m, root, L) && Linked(m, L) && Fresh(m, next) && q in m
    requires if left then m[q].left.None? else m[q].right.None?
    requires m' == m[q := if left then m[q].(left := Some(next)) else m[q].(right := Some(next))][next := Cell(key, None, None, Some(q))]
    ensures Shaped(m', root, L') && Linked(m', L') && Fresh(m', next + 1) && |L'.order| == |L.order| + 1
    ensures var t := if left then L.pos[q] else L.pos[q] + 1;
      t <= |Keys(m, L)| && Keys(m', L') == Keys(m, L)[..t] + [key] + Keys(m, L)[t..]
  {
    FreshGrown(m, next, m');
    L' := AttachStep(m, root, L, q, next, left, Cell(key, None, None, Some(q)));
  }

  /** `removeNodeWithNoChildren` below a parent: `node.parent.removeChild(node)`. */
  lemma UnhookStep(m: map<nat, Cell<int>>, root: Option<nat>, L: Layout, next: nat, n: nat, p: nat,
                   m': map<nat, Cell<int>>)
    returns (L': Layout)
    requires Shaped(m, root, L) && Linked(m, L) && Fresh(m, next) && n in m && m[n].left.None? && m[n].right.None?
    requires m[n].parent == Some(p) && p in m && m' == m[p := RemoveChild(m[p], n)] - {n}
    ensures Shaped(m', root, L') && Linked(m', L') && Fresh(m', next) && Deleted(m, L, n, m', L')
  {
    assert NodeOk(m, L, n);
    L' := DropStep(m, root, L, n);
    DropKept(m, L, n, p, m', L');
    SlotDeleted(m, L, n, m', L');
    FreshKept(m, next, m');
  }

  /** `removeNodeWithNoChildren` at the root: `tree.root = undefined`. */
  lemma UprootStep(m: map<nat, Cell<int>>, root: Option<nat>, L: Layout, next: nat, n: nat,
                   m': map<nat, Cell<int>>, L': Layout)
    requires Shaped(m, root, L) && Linked(m, L) && n in m && m[n].left.None? && m[n].right.None? && m[n].parent.None?
    requires m' == map[] && L' == Layout([], map[], map[])
    ensures Shaped(m', None, L') && Linked(m', L') && Fresh(m', next) && Deleted(m, L, n, m', L')
  {
    DropLastShaped(m, root, L, n);
    assert NodeOk(m, L, n);
  }

  /** Re-parenting two nodes to the same parent may be done in either order. */
  lemma ReparentSwap(m: map<nat, Cell<int>>, a: Option<nat>, b: Option<nat>, n: nat)
    ensures Reparent(Reparent(m, a, n), b, n) == Reparent(Reparent(m, b, n), a, n)
  {
  }

  /** Taking over `c` and re-parenting its children removes `c` and keeps every other key but that of `n`. */
  lemma RelinkedKept(m: map<nat, Cell<int>>, n: nat, c: nat)
    requires n in m && c in m
    ensures var m' := Reparent(Reparent(TookOver(m, n, c), m[c].right, n), m[c].left, n);
      && m'.Keys == (m.Keys - {c}) + {n}
      && forall i | i in m' && i != n :: m'[i].key == m[i].key
  {
  }

  /**
   * `removeNodeWithLeftOnly` and `removeNodeWithRightOnly`: `node` copies the
   * key and both links of its only child `c`, and the children of `c` are
   * re-parented to `node` (in either order).
   */
  lemma TakeOverStep(m: map<nat, Cell<int>>, root: Option<nat>, L: Layout, next: nat, n: nat, c: nat,
                     m': map<nat, Cell<int>>)
    returns (L': Layout)
    requires Shaped(m, root, L) && Linked(m, L) && Fresh(m, next) && n in m && c in m
    requires (m[n].left == Some(c) && m[n].right.None?) || (m[n].right == Some(c) && m[n].left.None?)
    requires m' == Reparent(Reparent(TookOver(m, n, c), m[c].right, n), m[c].left, n)
    ensures Shaped(m', root, L') && Linked(m', L') && Fresh(m', next) && Deleted(m, L, n, m', L')
  {
    L' := AbsorbRelinkStep(m, root, L, n, c);
    RelinkedKept(m, n, c);
    FreshKept(m, next, m');
    assert NodeOk(m, L, n);
    SlotDeleted(m, L, n, m', L');
  }

  /**
   * The two-children case of `removeInternal2`: once the node `x` that
   * `findParentOfMinimum` leads to is deleted, writing its key into `n`
   * completes the deletion of `n`.
   */
  lemma SuccessorStep(m: map<nat, Cell<int>>, root: Option<nat>, L: Layout, next: nat, n: nat, x: nat,
                      m1: map<nat, Cell<int>>, L1: Layout, m': map<nat, Cell<int>>)
    requires Shaped(m, root, L) && n in m && x in m && m[n].left.Some? && m[n].right.Some?
    requires SuccessorOf(m, L, n, x)
    requires Shaped(m1, root, L1) && Linked(m1, L1) && Fresh(m1, next) && Deleted(m, L, x, m1, L1)
    requires n in m1 && m' == m1[n := m1[n].(key := m[x].key)]
    ensures Shaped(m', root, L1) && Linked(m', L1) && Fresh(m', next) && Deleted(m, L, n, m', L1)
  {
    assert NodeOk(m, L, n);
    Rekeyed(m1, root, L1, n, m[x].key);
    SuccessorDeleted(m, L, n, x, m1, L1, m');
    FreshKept(m1, next, m');
  }

  // ---------------------------------------------------------------------
  // Search.

  /**
   * `containsInternal(tree, key, node)`: the comparison-directed descent
   * from `node`. A node it returns holds `key` and lies in the subtree of
   * `node`.
   */
  function ContainsInternal(m: map<nat, Cell<int>>, ghost root: Option<nat>, ghost L: Layout,
                            key: int, node: nat): (r: Option<nat>)
    requires Shaped(m, root, L) && node in m
    ensures r.Some? ==> r.value in m && m[r.value].key == key
    ensures r.Some? ==> L.at[node].lo <= L.pos[r.value] < L.at[node].hi
    decreases L.at[node].hi - L.at[node].lo
  {
    assert NodeOk(m, L, node);
    if key == m[node].key then Some(node)
    else if Compare(key, m[node].key) < 0 then
      if m[node].left.None? then None
      else ContainsInternal(m, root, L, key, m[node].left.value)
    // With integer keys a key that is neither equal, smaller nor larger does
    // not exist, so the source's final `return undefined` is never reached.
    else if m[node].right.None? then None
    else ContainsInternal(m, root, L, key, m[node].right.value)
  }

  /** On an ordered tree the descent misses no key that can only lie below `node`. */
  lemma {:induction false} ContainsInternalComplete(m: map<nat, Cell<int>>, root: Option<nat>, L: Layout,
                                                    key: int, node: nat)
    requires Shaped(m, root, L) && node in m
    requires Ascending(Keys(m, L)) && Outside(Keys(m, L), L.at[node].lo, L.at[node].hi, key)
    ensures ContainsInternal(m, root, L, key, node).None? <==> key !in Keys(m, L)
    decreases L.at[node].hi - L.at[node].lo
  {
    assert NodeOk(m, L, node);
    KeyAt(m, L, node);
    if key == m[node].key {
    } else if key < m[node].key {
      GoLeft(m, L, node, key);
      if m[node].left.Some? {
        ContainsInternalComplete(m, root, L, key, m[node].left.value);
      }
    } else {
      GoRight(m, L, node, key);
      if m[node].right.Some? {
        ContainsInternalComplete(m, root, L, key, m[node].right.value);
      }
    }
  }

  class SplayTree {
    var nodes: map<nat, Cell<int>>
    var root: Option<nat>
    var nodeCount: int
    /** The identity the next `new BinaryTreeNode` receives. */
    var next: nat
    /** The in-order layout of `nodes`. */
    ghost var L: Layout

    /** One tree whose parent links agree with its child links, every identity below `next`. */
    ghost predicate Tree()
      reads this
    {
      && Shaped(nodes, root, L)
      && Linked(nodes, L)
      && Fresh(nodes, next)
    }

    ghost predicate Valid()
      reads this
    {
      Tree() && nodeCount == |L.order|
    }

    /** The keys in in-order. */
    ghost function Contents(): seq<int>
      reads this
      requires Tree()
    {
      Keys(nodes, L)
    }

    constructor ()
      ensures Valid() && root.None? && nodeCount == 0 && Contents() == []
    {
      nodes := map[];
      root := None;
      nodeCount := 0;
      next := 0;
      L := Layout([], map[], map[]);
    }

    /**
     * `rotateLeft(tree, x)`: the right child of `x` takes its place (as the
     * root when `x` was the root) and its span; the in-order stays.
     */
    method RotateLeft(x: nat)
      requires Tree() && x in nodes && nodes[x].right.Some?
      modifies this
      ensures LeftTurned(old(nodes), old(root), old(L), x, nodes, root, L)
      ensures Tree() && nodeCount == old(nodeCount) && next == old(next)
    {
      RotateLeftSpots(nodes, root, L, x);
      var m := LeftRotateCells(nodes, x);
      var root' := if nodes[x].parent.None? then nodes[x].right else root;
      L := RotateLeftLinked(nodes, root, L, next, x, m, root');
      nodes := m;
      root := root';
    }

    /** `rotateRight(tree, x)`: the mirror of `RotateLeft`. */
    method RotateRight(x: nat)
      requires Tree() && x in nodes && nodes[x].left.Some?
      modifies this
      ensures RightTurned(old(nodes), old(root), old(L), x, nodes, root, L)
      ensures Tree() && nodeCount == old(nodeCount) && next == old(next)
    {
      RotateRightSpots(nodes, root, L, x);
      var m := RightRotateCells(nodes, x);
      var root' := if nodes[x].parent.None? then nodes[x].left else root;
      L := RotateRightLinked(nodes, root, L, next, x, m, root');
      nodes := m;
      root := root';
    }

    /**
     * The zig step of `splay`: the parent `p` of `n` is the root, and one
     * rotation at `p` makes `n` the root.
     */
    method Zig(n: nat, p: nat)
      requires Tree() && n in nodes && p in nodes && nodes[n].parent == Some(p) && nodes[p].parent.None?
      modifies this
      ensures Tree() && nodeCount == old(nodeCount) && next == old(next)
      ensures Raised(old(nodes), old(L), nodes, L, n)
      ensures old(nodes[p].left) == Some(n) ==> RightTurned(old(nodes), old(root), old(L), p, nodes, root, L)
      ensures old(nodes[p].left) != Some(n) ==> LeftTurned(old(nodes), old(root), old(L), p, nodes, root, L)
    {
      assert NodeOk(nodes, L, n) && NodeOk(nodes, L, p);
      ChildSmaller(nodes, L, p, n);
      if nodes[p].left == Some(n) {
        RotateRight(p);
      } else {
        RotateLeft(p);
      }
    }

    /**
     * The zig-zig step of `splay` on the left: `n` is the left child of `p`,
     * itself the left child of `g`. The source rotates right at `g`, then
     * right at the new parent of `n`, which is still `p`.
     */
    method ZigZigLeft(n: nat, p: nat, g: nat)
      requires Tree() && n in nodes && p in nodes && g in nodes
      requires nodes[n].parent == Some(p) && nodes[p].parent == Some(g)
      requires nodes[p].left == Some(n) && nodes[g].left == Some(p)
      modifies this
      ensures Tree() && nodeCount == old(nodeCount) && next == old(next)
      ensures Raised(old(nodes), old(L), nodes, L, n)
      ensures exists m1, r1, L1 ::
        RightTurned(old(nodes), old(root), old(L), g, m1, r1, L1) && RightTurned(m1, r1, L1, p, nodes, root, L)
    {
      assert NodeOk(nodes, L, n) && NodeOk(nodes, L, p) && NodeOk(nodes, L, g);
      ChildSmaller(nodes, L, p, n);
      ChildSmaller(nodes, L, g, p);
      ghost var m0, L0 := nodes, L;
      RotateRight(g);
      ghost var m1, r1, L1 := nodes, root, L;
      assert NodeOk(nodes, L, p);
      RotateRight(nodes[n].parent.value);
      RaisedTwice(m0, L0, m1, L1, nodes, L, n, g);
    }

    /** The mirror of `ZigZigLeft`: two left rotations, at `g` and then at `p`. */
    method ZigZigRight(n: nat, p: nat, g: nat)
      requires Tree() && n in nodes && p in nodes && g in nodes
      requires nodes[n].parent == Some(p) && nodes[p].parent == Some(g)
      requires nodes[p].right == Some(n) && nodes[g].right == Some(p)
      modifies this
      ensures Tree() && nodeCount == old(nodeCount) && next == old(next)
      ensures Raised(old(nodes), old(L), nodes, L, n)
      ensures exists m1, r1, L1 ::
        LeftTurned(old(nodes), old(root), old(L), g, m1, r1, L1) && LeftTurned(m1, r1, L1, p, nodes, root, L)
    {
      assert NodeOk(nodes, L, n) && NodeOk(nodes, L, p) && NodeOk(nodes, L, g);
      ChildSmaller(nodes, L, p, n);
      ChildSmaller(nodes, L, g, p);
      ghost var m0, L0 := nodes, L;
      RotateLeft(g);
      ghost var m1, r1, L1 := nodes, root, L;
      assert NodeOk(nodes, L, p);
      RotateLeft(nodes[n].parent.value);
      RaisedTwice(m0, L0, m1, L1, nodes, L, n, g);
    }

    /**
     * The zig-zag step of `splay` with `n` the left child of `p` and `p` the
     * right child of `g`: a right rotation at `p` lifts `n` below `g`, and a
     * left rotation at `g`, the new parent of `n`, lifts it above `g`.
     */
    method ZigZagLeft(n: nat, p: nat, g: nat)
      requires Tree() && n in nodes && p in nodes && g in nodes
      requires nodes[n].parent == Some(p) && nodes[p].parent == Some(g)
      requires nodes[p].left == Some(n) && nodes[g].right == Some(p)
      modifies this
      ensures Tree() && nodeCount == old(nodeCount) && next == old(next)
      ensures Raised(old(nodes), old(L), nodes, L, n)
      ensures exists m1, r1, L1 ::
        RightTurned(old(nodes), old(root), old(L), p, m1, r1, L1) && LeftTurned(m1, r1, L1, g, nodes, root, L)
    {
      assert NodeOk(nodes, L, n) && NodeOk(nodes, L, p) && NodeOk(nodes, L, g);
      ChildSmaller(nodes, L, p, n);
      ChildSmaller(nodes, L, g, p);
      ghost var m0, L0 := nodes, L;
      ghost var r0 := root;
      RotateRight(p);
      ghost var m1, r1, L1 := nodes, root, L;
      ZagRight(m0, r0, L0, p, m1, r1, L1, n, g);
      RotateLeft(nodes[n].parent.value);
      assert L.at[n] == L1.at[g];
      RaisedTwice(m0, L0, m1, L1, nodes, L, n, g);
    }

    /** The mirror of `ZigZagLeft`: `n` is the right child of `p`, the left child of `g`. */
    method ZigZagRight(n: nat, p: nat, g: nat)
      requires Tree() && n in nodes && p in nodes && g in nodes
      requires nodes[n].parent == Some(p) && nodes[p].parent == Some(g)
      requires nodes[p].right == Some(n) && nodes[g].left == Some(p)
      modifies this
      ensures Tree() && nodeCount == old(nodeCount) && next == old(next)
      ensures Raised(old(nodes), old(L), nodes, L, n)
      ensures exists m1, r1, L1 ::
        LeftTurned(old(nodes), old(root), old(L), p, m1, r1, L1) && RightTurned(m1, r1, L1, g, nodes, root, L)
    {
      assert NodeOk(nodes, L, n) && NodeOk(nodes, L, p) && NodeOk(nodes, L, g);
      ChildSmaller(nodes, L, p, n);
      ChildSmaller(nodes, L, g, p);
      ghost var m0, L0 := nodes, L;
      ghost var r0 := root;
      RotateLeft(p);
      ghost var m1, r1, L1 := nodes, root, L;
      ZagLeft(m0, r0, L0, p, m1, r1, L1, n, g);
      RotateRight(nodes[n].parent.value);
      assert L.at[n] == L1.at[g];
      RaisedTwice(m0, L0, m1, L1, nodes, L, n, g);
    }

    /**
     * `splay(tree, node)`: while `n` has a parent, a zig, zig-zig or zig-zag
     * step moves it up. Afterwards `n` is the root, and every node keeps its
     * key and its place in the in-order.
     */
    method Splay(n: nat)
      requires Tree() && n in nodes
      modifies this
      ensures Tree() && root == Some(n) && nodeCount == old(nodeCount) && next == old(next)
      ensures nodes.Keys == old(nodes.Keys) && SameKeys(old(nodes), nodes)
      ensures Contents() == old(Contents()) && L.order == old(L.order)
    {
      assert NodeOk(nodes, L, n);
      while nodes[n].parent.Some?
        invariant Tree() && n in nodes && nodeCount == old(nodeCount) && next == old(next)
        invariant nodes.Keys == old(nodes.Keys) && SameKeys(old(nodes), nodes)
        invariant Contents() == old(Contents()) && L.order == old(L.order)
        invariant L.at[n].hi - L.at[n].lo <= |L.order|
        decreases |L.order| - (L.at[n].hi - L.at[n].lo)
      {
        SplayStep(n);
        assert NodeOk(nodes, L, n);
      }
      assert NodeOk(nodes, L, n);
    }

    /** One pass of the loop of `splay`: the step that the shape above `n` calls for. */
    method SplayStep(n: nat)
      requires Tree() && n in nodes && nodes[n].parent.Some?
      modifies this
      ensures Tree() && nodeCount == old(nodeCount) && next == old(next)
      ensures Raised(old(nodes), old(L), nodes, L, n)
    {
      var parent := nodes[n].parent.value;
      assert NodeOk(nodes, L, n) && NodeOk(nodes, L, parent);
      if nodes[parent].parent.None? {
        Zig(n, parent);
      } else {
        var gparent := nodes[parent].parent.value;
        assert NodeOk(nodes, L, gparent);
        if nodes[parent].left == Some(n) && nodes[gparent].left == Some(parent) {
          ZigZigLeft(n, parent, gparent);
        } else if nodes[parent].right == Some(n) && nodes[gparent].right == Some(parent) {
          ZigZigRight(n, parent, gparent);
        } else if nodes[parent].left == Some(n) && nodes[gparent].right == Some(parent) {
          ZigZagLeft(n, parent, gparent);
        } else {
          ZigZagRight(n, parent, gparent);
        }
      }
    }

    /**
     * `contains(key)`: the descent of `containsInternal`, and a node found
     * is splayed to the root. The keys, their in-order and the count stay;
     * a miss changes nothing at all.
     */
    method Contains(key: int) returns (r: bool)
      requires Valid()
      modifies this
      ensures Valid() && nodeCount == old(nodeCount) && next == old(next)
      ensures Contents() == old(Contents()) && nodes.Keys == old(nodes.Keys) && SameKeys(old(nodes), nodes)
      ensures r ==> root.Some? && root.value in nodes && nodes[root.value].key == key && key in Contents()
      ensures !r ==> nodes == old(nodes) && root == old(root) && L == old(L)
      ensures Ascending(Contents()) ==> (r <==> key in Contents())
    {
      if root.None? {
        return false;
      }
      var node := ContainsInternal(nodes, root, L, key, root.value);
      assert NodeOk(nodes, L, root.value);
      if Ascending(Contents()) {
        ContainsInternalComplete(nodes, root, L, key, root.value);
      }
      if node.Some? {
        KeyAt(nodes, L, node.value);
        Splay(node.value);
        KeyAt(nodes, L, node.value);
      }
      return node.Some?;
    }

    /**
     * `add(key)`: an empty tree gets a root; otherwise `insertInternal` hangs
     * a new leaf and `contains(key)` splays the key's node to the root.
     */
    method Add(key: int) returns (r: bool)
      requires Valid()
      modifies this
      ensures Valid()
      ensures r ==> nodeCount == old(nodeCount) + 1 && Inserted(old(Contents()), key, Contents())
      ensures !r ==> key in old(Contents()) && Contents() == old(Contents()) && nodeCount == old(nodeCount)
      ensures Ascending(old(Contents())) ==> (r <==> key !in old(Contents())) && Ascending(Contents())
      ensures Ascending(old(Contents())) ==> root.Some? && root.value in nodes && nodes[root.value].key == key
    {
      ghost var s := Contents();
      if root.None? {
        Plant(key);
        assert Contents() == s[..0] + [key] + s[0..];
        return true;
      }
      assert NodeOk(nodes, L, root.value);
      r := InsertInternal(key, root.value);
      ghost var s1 := Contents();
      var found := Contains(key);
      if Ascending(s) {
        if !r {
          assert key in s1;
        } else {
          ghost var t :| 0 <= t <= |s| && s1 == s[..t] + [key] + s[t..];
          assert s1[t] == key;
        }
      }
    }

    /** `this.root = new BinaryTreeNode(key)` on an empty tree, then `nodeCount++`. */
    method Plant(key: int)
      requires Valid() && root.None?
      modifies this
      ensures Valid() && nodeCount == old(nodeCount) + 1 && Contents() == [key]
      ensures root.Some? && root.value in nodes && nodes[root.value].key == key
    {
      var n := next;
      var cell := Cell(key, None, None, None);
      PlantShaped(n, cell);
      nodeCount := nodeCount + 1;
      nodes := map[n := cell];
      L := Layout([n], map[n := 0], map[n := Span(0, 1, None)]);
      root := Some(n);
      next := next + 1;
    }

    /**
     * `insertInternal(tree, key, node)`: descend by comparison and hang a new
     * leaf, whose parent is the node it hangs on, on the first missing child
     * link; an equal key stops the descent and adds nothing.
     */
    method InsertInternal(key: int, node: nat) returns (r: bool)
      requires Valid() && node in nodes
      requires Ascending(Contents()) ==> Outside(Contents(), L.at[node].lo, L.at[node].hi, key)
      modifies this
      decreases L.at[node].hi - L.at[node].lo
      ensures Valid()
      ensures r ==> nodeCount == old(nodeCount) + 1 && Inserted(old(Contents()), key, Contents())
      ensures !r ==> key in old(Contents())
      ensures !r ==> nodes == old(nodes) && root == old(root) && nodeCount == old(nodeCount) && L == old(L)
      ensures Ascending(old(Contents())) ==> (r <==> key !in old(Contents())) && Ascending(Contents())
    {
      assert NodeOk(nodes, L, node);
      if Compare(key, nodes[node].key) < 0 {
        if nodes[node].left.Some? {
          if Ascending(Contents()) {
            GoLeft(nodes, L, node, key);
          }
          r := InsertInternal(key, nodes[node].left.value);
          return;
        }
        HangBelow(node, true, key);
        return true;
      }
      if Compare(key, nodes[node].key) > 0 {
        if nodes[node].right.Some? {
          if Ascending(Contents()) {
            GoRight(nodes, L, node, key);
          }
          r := InsertInternal(key, nodes[node].right.value);
          return;
        }
        HangBelow(node, false, key);
        return true;
      }
      KeyAt(nodes, L, node);
      return false;
    }

    /**
     * The end of the descent of `insertInternal`: `key` compares below (or
     * above) the key of `node`, whose child link on that side is missing.
     */
    method HangBelow(node: nat, left: bool, key: int)
      requires Valid() && node in nodes
      requires if left then nodes[node].left.None? && key < nodes[node].key else nodes[node].right.None? && key > nodes[node].key
      requires Ascending(Contents()) ==> Outside(Contents(), L.at[node].lo, L.at[node].hi, key)
      modifies this
      ensures Valid() && nodeCount == old(nodeCount) + 1 && Inserted(old(Contents()), key, Contents())
      ensures Ascending(old(Contents())) ==> key !in old(Contents()) && Ascending(Contents())
    {
      ghost var s := Contents();
      assert NodeOk(nodes, L, node);
      if Ascending(s) {
        if left {
          GoLeft(nodes, L, node, key);
        } else {
          GoRight(nodes, L, node, key);
        }
      }
      ghost var t := if left then L.pos[node] else L.pos[node] + 1;
      Hang(node, left, key);
      if Ascending(s) {
        AscendingInsert(s, t, key);
      }
    }

    /** `node.left = new BinaryTreeNode(key, node)` (or `.right`), then `nodeCount++`. */
    method Hang(q: nat, left: bool, key: int)
      requires Valid() && q in nodes && (if left then nodes[q].left.None? else nodes[q].right.None?)
      modifies this
      ensures Valid() && nodeCount == old(nodeCount) + 1
      ensures var t := if left then old(L.pos[q]) else old(L.pos[q]) + 1;
        t <= |old(Contents())| && Contents() == old(Contents())[..t] + [key] + old(Contents())[t..]
    {
      var m' := nodes[q := if left then nodes[q].(left := Some(next)) else nodes[q].(right := Some(next))]
                     [next := Cell(key, None, None, Some(q))];
      L := HangStep(nodes, root, L, next, q, left, key, m');
      nodes := m';
      nodeCount := nodeCount + 1;
      next := next + 1;
    }

    /** The key of the rightmost node: the last in-order key, the largest on an ordered tree. */
    method FindMaximum() returns (r: Option<int>)
      requires Valid()
      ensures r.None? <==> |Contents()| == 0
      ensures r.Some? ==> r.value == Contents()[|Contents()| - 1]
      ensures r.Some? && Ascending(Contents()) ==> forall j | 0 <= j < |Contents()| :: Contents()[j] <= r.value
    {
      if root.None? {
        return None;
      }
      var current := root.value;
      while true
        invariant current in nodes && L.at[current].hi == |L.order|
        decreases L.at[current].hi - L.at[current].lo
      {
        assert NodeOk(nodes, L, current);
        if nodes[current].right.Some? {
          current := nodes[current].right.value;
        } else {
          Rightmost(nodes, L, current);
          return Some(nodes[current].key);
        }
      }
    }

    /** The key of the leftmost node: the first in-order key, the least on an ordered tree. */
    method FindMinimum() returns (r: Option<int>)
      requires Valid()
      ensures r.None? <==> |Contents()| == 0
      ensures r.Some? ==> r.value == Contents()[0]
      ensures r.Some? && Ascending(Contents()) ==> forall j | 0 <= j < |Contents()| :: r.value <= Contents()[j]
    {
      if root.None? {
        return None;
      }
      var current := root.value;
      while true
        invariant current in nodes && L.at[current].lo == 0
        decreases L.at[current].hi - L.at[current].lo
      {
        assert NodeOk(nodes, L, current);
        if nodes[current].left.Some? {
          current := nodes[current].left.value;
        } else {
          Leftmost(nodes, L, current);
          return Some(nodes[current].key);
        }
      }
    }

    method IsEmpty() returns (r: bool)
      requires Valid()
      ensures r <==> |Contents()| == 0
    {
      return root.None?;
    }

    method Size() returns (r: int)
      requires Valid()
      ensures r == |Contents()|
    {
      return nodeCount;
    }

    /** `traversePreOrder`: every key once, each node before its subtrees. */
    method TraversePreOrder() returns (out: seq<int>)
      requires Valid()
      ensures out == PreOrder(View(nodes, L, root))
      ensures multiset(out) == multiset(Contents()) && |out| == nodeCount
    {
      out := Traversal.TraversePreOrder(nodes, root, L);
      InOrderIsKeys(nodes, root, L);
      SameVisits(View(nodes, L, root));
      VisitCount(View(nodes, L, root));
    }

    /** `traverseInOrder`: the keys in in-order, ascending on an ordered tree. */
    method TraverseInOrder() returns (out: seq<int>)
      requires Valid()
      ensures out == Contents() && |out| == nodeCount
      ensures Ascending(Contents()) ==> Ascending(out)
    {
      out := Traversal.TraverseInOrder(nodes, root, L);
      InOrderIsKeys(nodes, root, L);
    }

    /** `traversePostOrder`: every key once, each node after its subtrees. */
    method TraversePostOrder() returns (out: seq<int>)
      requires Valid()
      ensures out == PostOrder(View(nodes, L, root))
      ensures multiset(out) == multiset(Contents()) && |out| == nodeCount
    {
      out := Traversal.TraversePostOrder(nodes, root, L);
      InOrderIsKeys(nodes, root, L);
      SameVisits(View(nodes, L, root));
      VisitCount(View(nodes, L, root));
    }

    /**
     * `remove(key)`: `contains(key)` splays a node holding the key to the
     * root, then `removeInternal` descends from the root and deletes the
     * first node holding the key. One occurrence of the key leaves the tree.
     */
    method Remove(key: int) returns (r: bool)
      requires Valid()
      modifies this
      ensures Valid()
      ensures !r ==> Contents() == old(Contents()) && nodeCount == old(nodeCount)
      ensures r ==> key in old(Contents()) && nodeCount == old(nodeCount) - 1
      ensures r ==> multiset(Contents()) == old(multiset(Contents())) - multiset{key}
      ensures Ascending(old(Contents())) ==> (r <==> key in old(Contents()))
    {
      if root.None? {
        return false;
      }
      var found := Contains(key);
      assert NodeOk(nodes, L, root.value);
      r := RemoveInternal(key, root.value);
    }

    /**
     * `removeInternal(tree, key, node)`: descend by comparison; the first
     * node whose key compares equal is deleted by `removeInternal2`.
     */
    method RemoveInternal(key: int, node: nat) returns (r: bool)
      requires Valid() && node in nodes
      requires Ascending(Contents()) ==> Outside(Contents(), L.at[node].lo, L.at[node].hi, key)
      modifies this
      decreases L.at[node].hi - L.at[node].lo
      ensures Valid()
      ensures !r ==> nodes == old(nodes) && root == old(root) && L == old(L) && nodeCount == old(nodeCount)
      ensures !r && Ascending(old(Contents())) ==> key !in old(Contents())
      ensures old(nodes[node].key) == key ==> r
      ensures r ==> key in old(Contents()) && nodeCount == old(nodeCount) - 1
      ensures r ==> multiset(Contents()) == old(multiset(Contents())) - multiset{key}
      ensures r && Ascending(old(Contents())) && old(forall i | i in nodes && nodes[i].key == key :: Plain(nodes, i))
        ==> Ascending(Contents())
    {
      ghost var s := Contents();
      assert NodeOk(nodes, L, node);
      KeyAt(nodes, L, node);
      if Compare(key, nodes[node].key) < 0 {
        if Ascending(s) {
          GoLeft(nodes, L, node, key);
        }
        if nodes[node].left.Some? {
          r := RemoveInternal(key, nodes[node].left.value);
          return;
        }
        return false;
      }
      if Compare(key, nodes[node].key) > 0 {
        if Ascending(s) {
          GoRight(nodes, L, node, key);
        }
        if nodes[node].right.Some? {
          r := RemoveInternal(key, nodes[node].right.value);
          return;
        }
        return false;
      }
      RemoveFound(node);
      return true;
    }

    /** The found branch of `removeInternal`: `removeInternal2(tree, node)`. */
    method RemoveFound(node: nat)
      requires Valid() && node in nodes
      modifies this
      ensures Valid() && nodeCount == old(nodeCount) - 1
      ensures multiset(Contents()) == old(multiset(Contents())) - multiset{old(nodes[node].key)}
      ensures Ascending(old(Contents())) && old(Plain(nodes, node)) ==> Ascending(Contents())
    {
      ghost var s := Contents();
      ghost var t := L.pos[node];
      ghost var plain := Plain(nodes, node);
      KeyAt(nodes, L, node);
      RemoveInternal2(node);
      if Ascending(s) && plain {
        AscendingDelete(s, t);
      }
    }

    /**
     * `removeInternal2(tree, node)`: a leaf is unhooked from its parent (or
     * empties the tree); a node with one child takes that child's key and
     * links; a node with two children takes the key of the node chosen by
     * `findParentOfMinimum`, which is removed first. `nodeCount` drops by one.
     */
    method RemoveInternal2(node: nat)
      requires Tree() && node in nodes
      modifies this
      decreases L.at[node].hi - L.at[node].lo, 1
      ensures Tree() && nodeCount == old(nodeCount) - 1 && next == old(next)
      ensures old(L.at[node].up).Some? ==> root == old(root)
      ensures Deleted(old(nodes), old(L), node, nodes, L)
    {
      ChildrenIn(nodes, root, L, node);
      if nodes[node].left.None? && nodes[node].right.None? {
        RemoveNodeWithNoChildren(node);
      } else if nodes[node].left.Some? && nodes[node].right.None? {
        RemoveNodeWithLeftOnly(node);
      } else if nodes[node].right.Some? && nodes[node].left.None? {
        RemoveNodeWithRightOnly(node);
      } else {
        RemoveBySuccessor(node);
      }
    }

    /**
     * The two-children case of `removeInternal2`: the node that
     * `findParentOfMinimum(node.right, node)` leads to is removed and its
     * key is written into `node`.
     */
    method RemoveBySuccessor(node: nat)
      requires Tree() && node in nodes && nodes[node].left.Some? && nodes[node].right.Some?
      modifies this
      decreases L.at[node].hi - L.at[node].lo, 0
      ensures Tree() && nodeCount == old(nodeCount) - 1 && next == old(next) && root == old(root)
      ensures Deleted(old(nodes), old(L), node, nodes, L)
    {
      ghost var m0, L0 := nodes, L;
      SuccessorChoice(nodes, root, L, node);
      var minParent := FindParentOfMinimum(nodes, root, L, nodes[node].right.value, node);
      // `minParent` always has a left child here, so the `minParent.right`
      // alternative of the source is never taken.
      var minNode := nodes[minParent].left.value;
      var newKey := nodes[minNode].key;
      RemoveInternal2(minNode);
      WriteKey(m0, L0, node, minNode, newKey);
    }

    /** `node.value = minNode.value` once `minNode` is gone: the deletion of `node` is complete. */
    method WriteKey(ghost m0: map<nat, Cell<int>>, ghost L0: Layout, node: nat, x: nat, newKey: int)
      requires x in m0 && newKey == m0[x].key
      requires Shaped(m0, root, L0) && node in m0 && x in m0 && m0[node].left.Some? && m0[node].right.Some?
      requires SuccessorOf(m0, L0, node, x)
      requires Tree() && Deleted(m0, L0, x, nodes, L) && node in nodes
      modifies this`nodes
      ensures Tree() && Deleted(m0, L0, node, nodes, L)
    {
      var m' := nodes[node := nodes[node].(key := newKey)];
      SuccessorStep(m0, root, L0, next, node, x, nodes, L, m');
      nodes := m';
    }

    /** `removeNodeWithNoChildren`: `node.parent.removeChild(node)`, or `root = undefined`. */
    method RemoveNodeWithNoChildren(node: nat)
      requires Tree() && node in nodes && nodes[node].left.None? && nodes[node].right.None?
      modifies this
      ensures Tree() && nodeCount == old(nodeCount) - 1 && next == old(next)
      ensures old(L.at[node].up).Some? ==> root == old(root)
      ensures Deleted(old(nodes), old(L), node, nodes, L)
    {
      if nodes[node].parent.Some? {
        var p := nodes[node].parent.value;
        ParentIn(nodes, root, L, node);
        var m' := nodes[p := RemoveChild(nodes[p], node)] - {node};
        L := UnhookStep(nodes, root, L, next, node, p, m');
        nodes := m';
      } else {
        UprootStep(nodes, root, L, next, node, map[], Layout([], map[], map[]));
        root := None;
        nodes := map[];
        L := Layout([], map[], map[]);
      }
      nodeCount := nodeCount - 1;
    }

    /**
     * `removeNodeWithLeftOnly`: `node` takes the key and both links of its
     * left child, whose right and then left child are re-parented to `node`.
     */
    method RemoveNodeWithLeftOnly(node: nat)
      requires Tree() && node in nodes && nodes[node].left.Some? && nodes[node].right.None?
      modifies this
      ensures Tree() && nodeCount == old(nodeCount) - 1 && next == old(next) && root == old(root)
      ensures Deleted(old(nodes), old(L), node, nodes, L)
    {
      var c := nodes[node].left.value;
      ChildrenIn(nodes, root, L, node);
      var m' := Reparent(Reparent(TookOver(nodes, node, c), nodes[c].right, node), nodes[c].left, node);
      ghost var L' := TakeOverStep(nodes, root, L, next, node, c, m');
      nodes, L, nodeCount := m', L', nodeCount - 1;
    }

    /**
     * `removeNodeWithRightOnly`: `node` takes the key and both links of its
     * right child, whose left and then right child are re-parented to `node`.
     */
    method RemoveNodeWithRightOnly(node: nat)
      requires Tree() && node in nodes && nodes[node].right.Some? && nodes[node].left.None?
      modifies this
      ensures Tree() && nodeCount == old(nodeCount) - 1 && next == old(next) && root == old(root)
      ensures Deleted(old(nodes), old(L), node, nodes, L)
    {
      var c := nodes[node].right.value;
      ChildrenIn(nodes, root, L, node);
      var m' := Reparent(Reparent(TookOver(nodes, node, c), nodes[c].left, node), nodes[c].right, node);
      ReparentSwap(TookOver(nodes, node, c), nodes[c].left, nodes[c].right, node);
      ghost var L' := TakeOverStep(nodes, root, L, next, node, c, m');
      nodes, L, nodeCount := m', L', nodeCount - 1;
    }
  }
}
