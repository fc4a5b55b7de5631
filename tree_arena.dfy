/**
 * The node store shared by the binary trees.
 *
 * A tree's nodes live in an arena `map<nat, Cell<K>>`: the id is the node's
 * identity and a `Cell` holds the fields a node object carries (`key`,
 * `left`, `right`, `parent`; the red-black tree keeps its colours apart).
 *
 * The shape of the tree is described by a ghost `Layout`: the ids in
 * in-order (`order`) and, for each id, a `Span`: its index in that order
 * (`pos`), the half-open index range `[lo, hi)` that its subtree covers,
 * and its parent (`up`). Every invariant is local to one node and its
 * children, so a rotation moves two spans and a leaf insertion or a removal
 * is an index shift.
 */
module Arena {
  import opened Common

  datatype Cell<K> = Cell(key: K, left: Option<nat>, right: Option<nat>, parent: Option<nat>)

  datatype Span = Span(lo: nat, hi: nat, up: Option<nat>)

  datatype Layout = Layout(order: seq<nat>, pos: map<nat, nat>, at: map<nat, Span>)

  /** `BinaryTreeNode.removeChild`: `n` is no longer a child; everything else stays. */
  function RemoveChild<K>(c: Cell<K>, n: nat): (r: Cell<K>)
    ensures r.left != Some(n) && r.right != Some(n)
    ensures c.left != Some(n) ==> r.left == c.left
    ensures c.right != Some(n) ==> r.right == c.right
    ensures r.key == c.key && r.parent == c.parent
  {
    var c1 := if c.left == Some(n) then c.(left := None) else c;
    if c1.right == Some(n) then c1.(right := None) else c1
  }

  /** The layout has an index and a span for every node. */
  ghost predicate Covers<K>(m: map<nat, Cell<K>>, L: Layout)
  {
    m.Keys <= L.pos.Keys && m.Keys <= L.at.Keys
  }

  /** Every entry of `order` is a node. */
  ghost predicate Listed<K>(m: map<nat, Cell<K>>, L: Layout)
  {
    forall j {:trigger L.order[j]} | 0 <= j < |L.order| :: L.order[j] in m
  }

  /** `order` lists every id of the arena exactly once and `pos` is its inverse. */
  ghost predicate Indexed<K>(m: map<nat, Cell<K>>, L: Layout)
  {
    && Covers(m, L) && Listed(m, L)
    && (forall j {:trigger L.order[j]} | 0 <= j < |L.order| :: L.pos[L.order[j]] == j)
    && (forall i {:trigger L.pos[i]} | i in m :: L.pos[i] < |L.order| && L.order[L.pos[i]] == i)
  }

  /** Node `i` sits inside its own span. */
  ghost predicate SpanOk<K>(m: map<nat, Cell<K>>, L: Layout, i: nat)
    requires Covers(m, L) && i in m
  {
    L.at[i].lo <= L.pos[i] < L.at[i].hi <= |L.order|
  }

  /** The left subtree of `i` covers its span up to `i`. */
  ghost predicate LeftOk<K>(m: map<nat, Cell<K>>, L: Layout, i: nat)
    requires Covers(m, L) && i in m
  {
    match m[i].left
    case None => L.at[i].lo == L.pos[i]
    case Some(l) => l in m && L.at[l].lo == L.at[i].lo && L.at[l].hi == L.pos[i] && L.at[l].up == Some(i)
  }

  /** The right subtree of `i` covers its span after `i`. */
  ghost predicate RightOk<K>(m: map<nat, Cell<K>>, L: Layout, i: nat)
    requires Covers(m, L) && i in m
  {
    match m[i].right
    case None => L.at[i].hi == L.pos[i] + 1
    case Some(r) => r in m && L.at[r].lo == L.pos[i] + 1 && L.at[r].hi == L.at[i].hi && L.at[r].up == Some(i)
  }

  /** The recorded parent of `i` has `i` as a child. */
  ghost predicate UpOk<K>(m: map<nat, Cell<K>>, L: Layout, i: nat)
    requires Covers(m, L) && i in m
  {
    match L.at[i].up
    case None => true
    case Some(p) => p in m && (m[p].left == Some(i) || m[p].right == Some(i))
  }

  /** Node `i` sits between its subtrees and its children's spans tile its own. */
  ghost predicate NodeOk<K>(m: map<nat, Cell<K>>, L: Layout, i: nat)
    requires Covers(m, L) && i in m
  {
    SpanOk(m, L, i) && LeftOk(m, L, i) && RightOk(m, L, i) && UpOk(m, L, i)
  }

  ghost predicate RootOk<K>(m: map<nat, Cell<K>>, root: Option<nat>, L: Layout)
    requires Covers(m, L)
  {
    && (root.None? ==> |L.order| == 0)
    && (root.Some? ==> var r := root.value;
          r in m && L.at[r].lo == 0 && L.at[r].hi == |L.order| && L.at[r].up == None)
    && (forall i {:trigger L.at[i].up} | i in m :: L.at[i].up == None ==> root == Some(i))
  }

  /** The arena holds exactly one binary tree, rooted at `root`, laid out by `L`. */
  ghost predicate Shaped<K>(m: map<nat, Cell<K>>, root: Option<nat>, L: Layout)
  {
    && Indexed(m, L)
    && (forall i {:trigger NodeOk(m, L, i)} | i in m :: NodeOk(m, L, i))
    && RootOk(m, root, L)
  }

  /** The parent fields agree with the layout (trees whose nodes keep a parent link). */
  ghost predicate Linked<K>(m: map<nat, Cell<K>>, L: Layout)
    requires Covers(m, L)
  {
    forall i | i in m :: m[i].parent == L.at[i].up
  }

  /** The keys in in-order. */
  ghost function Keys<K>(m: map<nat, Cell<K>>, L: Layout): (s: seq<K>)
    requires Listed(m, L)
    ensures |s| == |L.order|
  {
    seq(|L.order|, j requires 0 <= j < |L.order| => m[L.order[j]].key)
  }

  ghost predicate SameKeys<K>(m: map<nat, Cell<K>>, m': map<nat, Cell<K>>)
  {
    forall i | i in m && i in m' :: m'[i].key == m[i].key
  }

  ghost predicate SameLinks<K>(m: map<nat, Cell<K>>, m': map<nat, Cell<K>>, i: nat)
    requires i in m && i in m'
  {
    m'[i].left == m[i].left && m'[i].right == m[i].right
  }

  /** In the arena `m'`, the child slot of `p` that held `was` now holds `now`. */
  ghost predicate ChildReplaced<K>(m: map<nat, Cell<K>>, m': map<nat, Cell<K>>, p: nat,
                                   was: nat, now: Option<nat>)
    requires p in m && p in m'
  {
    && (m[p].left == Some(was) ==> m'[p].left == now && m'[p].right == m[p].right)
    && (m[p].right == Some(was) ==> m'[p].right == now && m'[p].left == m[p].left)
  }

  // ---------------------------------------------------------------------
  // Subtrees are nested.

  /**
   * Every node whose index lies in the span of `i` is in the subtree of `i`:
   * its own span is inside, and unless it is `i` its parent lies inside too.
   */
  lemma {:induction false} Nested<K>(m: map<nat, Cell<K>>, root: Option<nat>, L: Layout, i: nat, j: nat)
    requires Shaped(m, root, L) && i in m && j in m
    requires L.at[i].lo <= L.pos[j] < L.at[i].hi
    ensures L.at[i].lo <= L.at[j].lo && L.at[j].hi <= L.at[i].hi
    ensures j != i ==> var p := L.at[j].up;
      p.Some? && p.value in m && L.at[i].lo <= L.pos[p.value] < L.at[i].hi
    decreases L.at[i].hi - L.at[i].lo
  {
    assert NodeOk(m, L, i);
    assert NodeOk(m, L, j);
    if L.pos[j] < L.pos[i] {
      var l := m[i].left.value;
      assert NodeOk(m, L, l);
      Nested(m, root, L, l, j);
    } else if L.pos[j] > L.pos[i] {
      var r := m[i].right.value;
      assert NodeOk(m, L, r);
      Nested(m, root, L, r, j);
    } else {
      assert L.order[L.pos[j]] == j;
    }
  }

  // ---------------------------------------------------------------------
  // Facts about one node.

  /** A child's span is strictly smaller than its parent's, and records the parent. */
  lemma ChildSmaller<K>(m: map<nat, Cell<K>>, L: Layout, i: nat, c: nat)
    requires Indexed(m, L) && i in m && NodeOk(m, L, i)
    requires m[i].left == Some(c) || m[i].right == Some(c)
    ensures c in m && L.at[c].up == Some(i)
    ensures L.at[c].hi - L.at[c].lo < L.at[i].hi - L.at[i].lo
  {
  }

  /** The parent of `p` is none of `p`, its child `x` and its grandchild `y`. */
  lemma AboveGrandchild<K>(m: map<nat, Cell<K>>, L: Layout, p: nat, x: nat, y: nat, q: nat)
    requires Indexed(m, L) && p in m && x in m && y in m
    requires NodeOk(m, L, p) && NodeOk(m, L, x) && NodeOk(m, L, y)
    requires m[p].left == Some(x) || m[p].right == Some(x)
    requires m[x].left == Some(y) || m[x].right == Some(y)
    requires L.at[p].up == Some(q)
    ensures q in m && q != p && q != x && q != y
    ensures m[q].left == Some(p) || m[q].right == Some(p)
  {
    ChildSmaller(m, L, p, x);
    ChildSmaller(m, L, x, y);
    if q == p || q == x || q == y {
      ChildSmaller(m, L, q, p);
    }
  }

  /**
   * A node whose links, span and neighbours' spans are as before keeps its
   * local invariant in an arena laid out in the same order.
   */
  lemma Untouched<K>(m: map<nat, Cell<K>>, L: Layout, m': map<nat, Cell<K>>, L': Layout, i: nat)
    requires Indexed(m, L) && Covers(m', L') && i in m && i in m'
    requires |L'.order| == |L.order| && L'.pos[i] == L.pos[i]
    requires NodeOk(m, L, i) && SameLinks(m, m', i) && L'.at[i] == L.at[i]
    requires m[i].left.Some? ==> m[i].left.value in m' && L'.at[m[i].left.value] == L.at[m[i].left.value]
    requires m[i].right.Some? ==> m[i].right.value in m' && L'.at[m[i].right.value] == L.at[m[i].right.value]
    requires L.at[i].up.Some? ==> var q := L.at[i].up.value;
      q in m' && (m'[q].left == Some(i) || m'[q].right == Some(i))
    ensures NodeOk(m', L', i)
  {
  }

  /**
   * A node whose child slot moved from `x` to `y`, where `y` now covers the
   * span `x` covered, keeps its local invariant.
   */
  lemma Reslotted<K>(m: map<nat, Cell<K>>, L: Layout, m': map<nat, Cell<K>>, L': Layout, p: nat, x: nat, y: nat)
    requires Indexed(m, L) && Covers(m', L') && p in m && p in m'
    requires |L'.order| == |L.order| && L'.pos[p] == L.pos[p]
    requires NodeOk(m, L, p) && L'.at[p] == L.at[p]
    requires m[p].left == Some(x) || m[p].right == Some(x)
    requires ChildReplaced(m, m', p, x, Some(y))
    requires x in m && y in m' && L'.at[y] == Span(L.at[x].lo, L.at[x].hi, Some(p))
    requires m[p].left.Some? && m[p].left != Some(x) ==>
      m[p].left.value in m' && L'.at[m[p].left.value] == L.at[m[p].left.value]
    requires m[p].right.Some? && m[p].right != Some(x) ==>
      m[p].right.value in m' && L'.at[m[p].right.value] == L.at[m[p].right.value]
    requires L.at[p].up.Some? ==> var q := L.at[p].up.value;
      q in m' && (m'[q].left == Some(p) || m'[q].right == Some(p))
    ensures NodeOk(m', L', p)
  {
  }

  // ---------------------------------------------------------------------
  // Left rotation.

  ghost function RotatedLeft(L: Layout, x: nat, y: nat, b: Option<nat>): Layout
    requires x in L.at && y in L.at && y in L.pos && (b.Some? ==> b.value in L.at)
  {
    var X, Y := L.at[x], L.at[y];
    var at1 := L.at[x := X.(hi := L.pos[y], up := Some(y))][y := Y.(lo := X.lo, hi := X.hi, up := X.up)];
    L.(at := if b.Some? then at1[b.value := L.at[b.value].(up := Some(x))] else at1)
  }

  /** Node `x` has a right child, and the inner grandchild `b` and the parent are nodes. */
  ghost predicate RightSpine<K>(m: map<nat, Cell<K>>, L: Layout, x: nat)
  {
    && x in m && x in L.at && m[x].right.Some? && m[x].right.value in m && m[x].right.value in L.at
    && m[x].right.value in L.pos
    && var y := m[x].right.value;
    && (m[y].left.Some? ==> m[y].left.value in m && m[y].left.value in L.at)
    && (L.at[x].up.Some? ==> L.at[x].up.value in m)
  }

  /** The arena `m'` is `m` with a left rotation at `x` applied to the child links. */
  ghost predicate LeftRotatedLinks<K>(m: map<nat, Cell<K>>, L: Layout, x: nat, m': map<nat, Cell<K>>)
    requires RightSpine(m, L, x)
  {
    var y := m[x].right.value;
    var px := L.at[x].up;
    && m'.Keys == m.Keys
    && m'[x].left == m[x].left && m'[x].right == m[y].left
    && m'[y].left == Some(x) && m'[y].right == m[y].right
    && (px.Some? ==> ChildReplaced(m, m', px.value, x, m[x].right))
    && (forall i {:trigger SameLinks(m, m', i)} | i in m && i != x && i != y && Some(i) != px :: SameLinks(m, m', i))
  }

  ghost function LeftRotation<K>(m: map<nat, Cell<K>>, L: Layout, x: nat): Layout
    requires RightSpine(m, L, x)
  {
    var y := m[x].right.value;
    RotatedLeft(L, x, y, m[y].left)
  }

  /** What every step of the left-rotation proof starts from. */
  ghost predicate LeftTurn<K>(m: map<nat, Cell<K>>, L: Layout, x: nat, m': map<nat, Cell<K>>)
  {
    Indexed(m, L) && RightSpine(m, L, x) && LeftRotatedLinks(m, L, x, m')
    && Covers(m', LeftRotation(m, L, x))
  }

  lemma RotateLeftIndexed<K>(m: map<nat, Cell<K>>, L: Layout, x: nat, m': map<nat, Cell<K>>)
    requires Indexed(m, L) && RightSpine(m, L, x) && LeftRotatedLinks(m, L, x, m')
    ensures Indexed(m', LeftRotation(m, L, x))
  {
  }

  lemma RotateLeftAtX<K>(m: map<nat, Cell<K>>, L: Layout, x: nat, m': map<nat, Cell<K>>)
    requires LeftTurn(m, L, x, m')
    requires NodeOk(m, L, x) && NodeOk(m, L, m[x].right.value)
    ensures NodeOk(m', LeftRotation(m, L, x), x)
  {
    var y := m[x].right.value;
    var L' := LeftRotation(m, L, x);
    if m[x].left.Some? {
      var a := m[x].left.value;
      assert a != x && a != y && Some(a) != m[y].left;
      assert L'.at[a] == L.at[a];
    }
    if m[y].left.Some? {
      var b := m[y].left.value;
      assert b != x && b != y;
      assert L'.at[b] == L.at[b].(up := Some(x));
    }
  }

  lemma RotateLeftAtY<K>(m: map<nat, Cell<K>>, L: Layout, x: nat, m': map<nat, Cell<K>>)
    requires LeftTurn(m, L, x, m')
    requires NodeOk(m, L, x) && NodeOk(m, L, m[x].right.value)
    ensures NodeOk(m', LeftRotation(m, L, x), m[x].right.value)
  {
    var y := m[x].right.value;
    var L' := LeftRotation(m, L, x);
    assert L'.at[x].up == Some(y);
    if m[y].right.Some? {
      var c := m[y].right.value;
      ChildSmaller(m, L, x, y);
      ChildSmaller(m, L, y, c);
      assert c != x && c != y && Some(c) != m[y].left;
      assert L'.at[c] == L.at[c];
    }
  }

  lemma RotateLeftAtInner<K>(m: map<nat, Cell<K>>, L: Layout, x: nat, m': map<nat, Cell<K>>)
    requires LeftTurn(m, L, x, m') && m[m[x].right.value].left.Some?
    requires NodeOk(m, L, x) && NodeOk(m, L, m[x].right.value)
    requires NodeOk(m, L, m[m[x].right.value].left.value)
    ensures NodeOk(m', LeftRotation(m, L, x), m[m[x].right.value].left.value)
  {
    var y := m[x].right.value;
    var b := m[y].left.value;
    var L' := LeftRotation(m, L, x);
    ChildSmaller(m, L, x, y);
    ChildSmaller(m, L, y, b);
    assert b != x && b != y && Some(b) != L.at[x].up;
    assert SameLinks(m, m', b);
    if m[b].left.Some? {
      var l := m[b].left.value;
      ChildSmaller(m, L, b, l);
      assert l != x && l != y && l != b;
      assert L'.at[l] == L.at[l];
    }
    if m[b].right.Some? {
      var r := m[b].right.value;
      ChildSmaller(m, L, b, r);
      assert r != x && r != y && r != b;
      assert L'.at[r] == L.at[r];
    }
    assert L'.at[b] == L.at[b].(up := Some(x));
  }

  lemma RotateLeftAtParent<K>(m: map<nat, Cell<K>>, L: Layout, x: nat, m': map<nat, Cell<K>>)
    requires LeftTurn(m, L, x, m') && L.at[x].up.Some?
    requires NodeOk(m, L, x) && NodeOk(m, L, m[x].right.value) && NodeOk(m, L, L.at[x].up.value)
    ensures NodeOk(m', LeftRotation(m, L, x), L.at[x].up.value)
  {
    var y := m[x].right.value;
    var p := L.at[x].up.value;
    var L' := LeftRotation(m, L, x);
    ChildSmaller(m, L, p, x);
    ChildSmaller(m, L, x, y);
    if m[y].left.Some? {
      ChildSmaller(m, L, y, m[y].left.value);
    }
    assert p != x && p != y && Some(p) != m[y].left;
    assert L'.at[p] == L.at[p];
    if m[p].left.Some? && m[p].left != Some(x) {
      var o := m[p].left.value;
      ChildSmaller(m, L, p, o);
      assert L'.at[o] == L.at[o];
    }
    if m[p].right.Some? && m[p].right != Some(x) {
      var o := m[p].right.value;
      ChildSmaller(m, L, p, o);
      assert L'.at[o] == L.at[o];
    }
    if L.at[p].up.Some? {
      var q := L.at[p].up.value;
      AboveGrandchild(m, L, p, x, y, q);
      assert SameLinks(m, m', q);
    }
    Reslotted(m, L, m', L', p, x, y);
  }

  lemma RotateLeftElsewhere<K>(m: map<nat, Cell<K>>, L: Layout, x: nat, m': map<nat, Cell<K>>, i: nat)
    requires LeftTurn(m, L, x, m')
    requires i in m && i != x && i != m[x].right.value && Some(i) != m[m[x].right.value].left
    requires Some(i) != L.at[x].up
    requires NodeOk(m, L, x) && NodeOk(m, L, m[x].right.value) && NodeOk(m, L, i)
    requires L.at[x].up.Some? ==> NodeOk(m, L, L.at[x].up.value)
    ensures NodeOk(m', LeftRotation(m, L, x), i)
  {
    var y := m[x].right.value;
    var L' := LeftRotation(m, L, x);
    assert SameLinks(m, m', i);
    assert L'.at[i] == L.at[i];
    if m[i].left.Some? {
      var l := m[i].left.value;
      ChildSmaller(m, L, i, l);
      assert l != x && l != y && Some(l) != m[y].left;
      assert L'.at[l] == L.at[l];
    }
    if m[i].right.Some? {
      var r := m[i].right.value;
      ChildSmaller(m, L, i, r);
      assert r != x && r != y && Some(r) != m[y].left;
      assert L'.at[r] == L.at[r];
    }
    if L.at[i].up.Some? {
      var q := L.at[i].up.value;
      if q != x && q != y && Some(q) != L.at[x].up {
        assert SameLinks(m, m', q);
      }
    }
    Untouched(m, L, m', L', i);
  }

  lemma RotateLeftNodes<K>(m: map<nat, Cell<K>>, root: Option<nat>, L: Layout, x: nat, m': map<nat, Cell<K>>)
    requires Shaped(m, root, L) && LeftTurn(m, L, x, m')
    ensures forall i | i in m' :: NodeOk(m', LeftRotation(m, L, x), i)
  {
    var y := m[x].right.value;
    assert NodeOk(m, L, x) && NodeOk(m, L, y);
    if L.at[x].up.Some? {
      assert NodeOk(m, L, L.at[x].up.value);
    }
    forall i | i in m' ensures NodeOk(m', LeftRotation(m, L, x), i) {
      if i == x {
        RotateLeftAtX(m, L, x, m');
      } else if i == y {
        RotateLeftAtY(m, L, x, m');
      } else if Some(i) == m[y].left {
        assert NodeOk(m, L, i);
        RotateLeftAtInner(m, L, x, m');
      } else if Some(i) == L.at[x].up {
        RotateLeftAtParent(m, L, x, m');
      } else {
        assert NodeOk(m, L, i);
        RotateLeftElsewhere(m, L, x, m', i);
      }
    }
  }

  lemma RotateLeftRoot<K>(m: map<nat, Cell<K>>, root: Option<nat>, L: Layout, x: nat,
                          m': map<nat, Cell<K>>, root': Option<nat>)
    requires LeftTurn(m, L, x, m') && RootOk(m, root, L)
    requires NodeOk(m, L, x) && NodeOk(m, L, m[x].right.value)
    requires root' == if L.at[x].up.None? then m[x].right else root
    ensures RootOk(m', root', LeftRotation(m, L, x))
  {
    var y := m[x].right.value;
    var L' := LeftRotation(m, L, x);
    forall i | i in m' && L'.at[i].up == None ensures root' == Some(i) {
      if i != x && i != y && Some(i) != m[y].left {
        assert L'.at[i] == L.at[i];
      }
    }
  }

  lemma RotateLeftKeys<K>(m: map<nat, Cell<K>>, L: Layout, x: nat, m': map<nat, Cell<K>>)
    requires LeftTurn(m, L, x, m') && SameKeys(m, m')
    ensures Keys(m', LeftRotation(m, L, x)) == Keys(m, L)
  {
  }

  /**
   * Left rotation at `x` (right child `y`, inner grandchild `b`): `x.right`
   * becomes `b`, `y.left` becomes `x`, and `y` takes the place of `x` under
   * its parent or as the root. The result is a tree with the same in-order.
   */
  lemma RotateLeftShaped<K>(m: map<nat, Cell<K>>, root: Option<nat>, L: Layout, x: nat,
                            m': map<nat, Cell<K>>, root': Option<nat>)
    requires Shaped(m, root, L) && RightSpine(m, L, x) && LeftRotatedLinks(m, L, x, m')
    requires root' == if L.at[x].up.None? then m[x].right else root
    ensures Shaped(m', root', LeftRotation(m, L, x))
    ensures SameKeys(m, m') ==> Keys(m', LeftRotation(m, L, x)) == Keys(m, L)
  {
    RotateLeftIndexed(m, L, x, m');
    RotateLeftNodes(m, root, L, x, m');
    assert NodeOk(m, L, x) && NodeOk(m, L, m[x].right.value);
    RotateLeftRoot(m, root, L, x, m', root');
    if SameKeys(m, m') {
      RotateLeftKeys(m, L, x, m');
    }
  }

  // ---------------------------------------------------------------------
  // Right rotation.

  ghost function RotatedRight(L: Layout, x: nat, y: nat, b: Option<nat>): Layout
    requires x in L.at && y in L.at && y in L.pos && (b.Some? ==> b.value in L.at)
  {
    var X, Y := L.at[x], L.at[y];
    var at1 := L.at[x := X.(lo := L.pos[y] + 1, up := Some(y))][y := Y.(lo := X.lo, hi := X.hi, up := X.up)];
    L.(at := if b.Some? then at1[b.value := L.at[b.value].(up := Some(x))] else at1)
  }

  /** Node `x` has a left child, and the inner grandchild `b` and the parent are nodes. */
  ghost predicate LeftSpine<K>(m: map<nat, Cell<K>>, L: Layout, x: nat)
  {
    && x in m && x in L.at && m[x].left.Some? && m[x].left.value in m && m[x].left.value in L.at
    && m[x].left.value in L.pos
    && var y := m[x].left.value;
    && (m[y].right.Some? ==> m[y].right.value in m && m[y].right.value in L.at)
    && (L.at[x].up.Some? ==> L.at[x].up.value in m)
  }

  /** The arena `m'` is `m` with a right rotation at `x` applied to the child links. */
  ghost predicate RightRotatedLinks<K>(m: map<nat, Cell<K>>, L: Layout, x: nat, m': map<nat, Cell<K>>)
    requires LeftSpine(m, L, x)
  {
    var y := m[x].left.value;
    var px := L.at[x].up;
    && m'.Keys == m.Keys
    && m'[x].right == m[x].right && m'[x].left == m[y].right
    && m'[y].right == Some(x) && m'[y].left == m[y].left
    && (px.Some? ==> ChildReplaced(m, m', px.value, x, m[x].left))
    && (forall i {:trigger SameLinks(m, m', i)} | i in m && i != x && i != y && Some(i) != px :: SameLinks(m, m', i))
  }

  ghost function RightRotation<K>(m: map<nat, Cell<K>>, L: Layout, x: nat): Layout
    requires LeftSpine(m, L, x)
  {
    var y := m[x].left.value;
    RotatedRight(L, x, y, m[y].right)
  }

  /** What every step of the right-rotation proof starts from. */
  ghost predicate RightTurn<K>(m: map<nat, Cell<K>>, L: Layout, x: nat, m': map<nat, Cell<K>>)
  {
    Indexed(m, L) && LeftSpine(m, L, x) && RightRotatedLinks(m, L, x, m')
    && Covers(m', RightRotation(m, L, x))
  }

  lemma RotateRightIndexed<K>(m: map<nat, Cell<K>>, L: Layout, x: nat, m': map<nat, Cell<K>>)
    requires Indexed(m, L) && LeftSpine(m, L, x) && RightRotatedLinks(m, L, x, m')
    ensures Indexed(m', RightRotation(m, L, x))
  {
  }

  lemma RotateRightAtX<K>(m: map<nat, Cell<K>>, L: Layout, x: nat, m': map<nat, Cell<K>>)
    requires RightTurn(m, L, x, m')
    requires NodeOk(m, L, x) && NodeOk(m, L, m[x].left.value)
    ensures NodeOk(m', RightRotation(m, L, x), x)
  {
    var y := m[x].left.value;
    var L' := RightRotation(m, L, x);
    if m[x].right.Some? {
      var a := m[x].right.value;
      assert a != x && a != y && Some(a) != m[y].right;
      assert L'.at[a] == L.at[a];
    }
    if m[y].right.Some? {
      var b := m[y].right.value;
      assert b != x && b != y;
      assert L'.at[b] == L.at[b].(up := Some(x));
    }
  }

  lemma RotateRightAtY<K>(m: map<nat, Cell<K>>, L: Layout, x: nat, m': map<nat, Cell<K>>)
    requires RightTurn(m, L, x, m')
    requires NodeOk(m, L, x) && NodeOk(m, L, m[x].left.value)
    ensures NodeOk(m', RightRotation(m, L, x), m[x].left.value)
  {
    var y := m[x].left.value;
    var L' := RightRotation(m, L, x);
    assert L'.at[x].up == Some(y);
    if m[y].left.Some? {
      var c := m[y].left.value;
      ChildSmaller(m, L, x, y);
      ChildSmaller(m, L, y, c);
      assert c != x && c != y && Some(c) != m[y].right;
      assert L'.at[c] == L.at[c];
    }
  }

  lemma RotateRightAtInner<K>(m: map<nat, Cell<K>>, L: Layout, x: nat, m': map<nat, Cell<K>>)
    requires RightTurn(m, L, x, m') && m[m[x].left.value].right.Some?
    requires NodeOk(m, L, x) && NodeOk(m, L, m[x].left.value)
    requires NodeOk(m, L, m[m[x].left.value].right.value)
    ensures NodeOk(m', RightRotation(m, L, x), m[m[x].left.value].right.value)
  {
    var y := m[x].left.value;
    var b := m[y].right.value;
    var L' := RightRotation(m, L, x);
    ChildSmaller(m, L, x, y);
    ChildSmaller(m, L, y, b);
    assert b != x && b != y && Some(b) != L.at[x].up;
    assert SameLinks(m, m', b);
    if m[b].right.Some? {
      var l := m[b].right.value;
      ChildSmaller(m, L, b, l);
      assert l != x && l != y && l != b;
      assert L'.at[l] == L.at[l];
    }
    if m[b].left.Some? {
      var r := m[b].left.value;
      ChildSmaller(m, L, b, r);
      assert r != x && r != y && r != b;
      assert L'.at[r] == L.at[r];
    }
    assert L'.at[b] == L.at[b].(up := Some(x));
  }

  lemma RotateRightAtParent<K>(m: map<nat, Cell<K>>, L: Layout, x: nat, m': map<nat, Cell<K>>)
    requires RightTurn(m, L, x, m') && L.at[x].up.Some?
    requires NodeOk(m, L, x) && NodeOk(m, L, m[x].left.value) && NodeOk(m, L, L.at[x].up.value)
    ensures NodeOk(m', RightRotation(m, L, x), L.at[x].up.value)
  {
    var y := m[x].left.value;
    var p := L.at[x].up.value;
    var L' := RightRotation(m, L, x);
    ChildSmaller(m, L, p, x);
    ChildSmaller(m, L, x, y);
    if m[y].right.Some? {
      ChildSmaller(m, L, y, m[y].right.value);
    }
    assert p != x && p != y && Some(p) != m[y].right;
    assert L'.at[p] == L.at[p];
    if m[p].right.Some? && m[p].right != Some(x) {
      var o := m[p].right.value;
      ChildSmaller(m, L, p, o);
      assert L'.at[o] == L.at[o];
    }
    if m[p].left.Some? && m[p].left != Some(x) {
      var o := m[p].left.value;
      ChildSmaller(m, L, p, o);
      assert L'.at[o] == L.at[o];
    }
    if L.at[p].up.Some? {
      var q := L.at[p].up.value;
      AboveGrandchild(m, L, p, x, y, q);
      assert SameLinks(m, m', q);
    }
    Reslotted(m, L, m', L', p, x, y);
  }

  lemma RotateRightElsewhere<K>(m: map<nat, Cell<K>>, L: Layout, x: nat, m': map<nat, Cell<K>>, i: nat)
    requires RightTurn(m, L, x, m')
    requires i in m && i != x && i != m[x].left.value && Some(i) != m[m[x].left.value].right
    requires Some(i) != L.at[x].up
    requires NodeOk(m, L, x) && NodeOk(m, L, m[x].left.value) && NodeOk(m, L, i)
    requires L.at[x].up.Some? ==> NodeOk(m, L, L.at[x].up.value)
    ensures NodeOk(m', RightRotation(m, L, x), i)
  {
    var y := m[x].left.value;
    var L' := RightRotation(m, L, x);
    assert SameLinks(m, m', i);
    assert L'.at[i] == L.at[i];
    if m[i].right.Some? {
      var l := m[i].right.value;
      ChildSmaller(m, L, i, l);
      assert l != x && l != y && Some(l) != m[y].right;
      assert L'.at[l] == L.at[l];
    }
    if m[i].left.Some? {
      var r := m[i].left.value;
      ChildSmaller(m, L, i, r);
      assert r != x && r != y && Some(r) != m[y].right;
      assert L'.at[r] == L.at[r];
    }
    if L.at[i].up.Some? {
      var q := L.at[i].up.value;
      if q != x && q != y && Some(q) != L.at[x].up {
        assert SameLinks(m, m', q);
      }
    }
    Untouched(m, L, m', L', i);
  }

  lemma RotateRightNodes<K>(m: map<nat, Cell<K>>, root: Option<nat>, L: Layout, x: nat, m': map<nat, Cell<K>>)
    requires Shaped(m, root, L) && RightTurn(m, L, x, m')
    ensures forall i | i in m' :: NodeOk(m', RightRotation(m, L, x), i)
  {
    var y := m[x].left.value;
    assert NodeOk(m, L, x) && NodeOk(m, L, y);
    if L.at[x].up.Some? {
      assert NodeOk(m, L, L.at[x].up.value);
    }
    forall i | i in m' ensures NodeOk(m', RightRotation(m, L, x), i) {
      if i == x {
        RotateRightAtX(m, L, x, m');
      } else if i == y {
        RotateRightAtY(m, L, x, m');
      } else if Some(i) == m[y].right {
        assert NodeOk(m, L, i);
        RotateRightAtInner(m, L, x, m');
      } else if Some(i) == L.at[x].up {
        RotateRightAtParent(m, L, x, m');
      } else {
        assert NodeOk(m, L, i);
        RotateRightElsewhere(m, L, x, m', i);
      }
    }
  }

  lemma RotateRightRoot<K>(m: map<nat, Cell<K>>, root: Option<nat>, L: Layout, x: nat,
                          m': map<nat, Cell<K>>, root': Option<nat>)
    requires RightTurn(m, L, x, m') && RootOk(m, root, L)
    requires NodeOk(m, L, x) && NodeOk(m, L, m[x].left.value)
    requires root' == if L.at[x].up.None? then m[x].left else root
    ensures RootOk(m', root', RightRotation(m, L, x))
  {
    var y := m[x].left.value;
    var L' := RightRotation(m, L, x);
    forall i | i in m' && L'.at[i].up == None ensures root' == Some(i) {
      if i != x && i != y && Some(i) != m[y].right {
        assert L'.at[i] == L.at[i];
      }
    }
  }

  lemma RotateRightKeys<K>(m: map<nat, Cell<K>>, L: Layout, x: nat, m': map<nat, Cell<K>>)
    requires RightTurn(m, L, x, m') && SameKeys(m, m')
    ensures Keys(m', RightRotation(m, L, x)) == Keys(m, L)
  {
  }

  /**
   * Right rotation at `x` (left child `y`, inner grandchild `b`): `x.left`
   * becomes `b`, `y.right` becomes `x`, and `y` takes the place of `x` under
   * its parent or as the root. The result is a tree with the same in-order.
   */
  lemma RotateRightShaped<K>(m: map<nat, Cell<K>>, root: Option<nat>, L: Layout, x: nat,
                            m': map<nat, Cell<K>>, root': Option<nat>)
    requires Shaped(m, root, L) && LeftSpine(m, L, x) && RightRotatedLinks(m, L, x, m')
    requires root' == if L.at[x].up.None? then m[x].left else root
    ensures Shaped(m', root', RightRotation(m, L, x))
    ensures SameKeys(m, m') ==> Keys(m', RightRotation(m, L, x)) == Keys(m, L)
  {
    RotateRightIndexed(m, L, x, m');
    RotateRightNodes(m, root, L, x, m');
    assert NodeOk(m, L, x) && NodeOk(m, L, m[x].left.value);
    RotateRightRoot(m, root, L, x, m', root');
    if SameKeys(m, m') {
      RotateRightKeys(m, L, x, m');
    }
  }
}
