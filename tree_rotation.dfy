/**
 * Left and right rotations over an arena of parent-linked cells, shared by
 * the splay tree and the red-black tree: the field writes of `rotateLeft`
 * and `rotateRight` in the order the sources make them, and the proof that
 * they keep one linked tree with the same in-order.
 */
module TreeRotation {
  import opened Common
  import opened Arena

  /** Every node identity was handed out before `next`. */
  ghost predicate Fresh<K>(m: map<nat, Cell<K>>, next: nat)
  {
    forall i | i in m :: i < next
  }

  /** The arena invariant of a parent-linked tree: one linked binary tree below `next`. */
  ghost predicate Arranged<K>(m: map<nat, Cell<K>>, root: Option<nat>, L: Layout, next: nat)
  {
    Shaped(m, root, L) && Linked(m, L) && Fresh(m, next)
  }

  /** Handing out `next` to a new node keeps every identity below the next one. */
  lemma FreshGrown<K>(m: map<nat, Cell<K>>, next: nat, m': map<nat, Cell<K>>)
    requires Fresh(m, next) && m'.Keys <= m.Keys + {next}
    ensures Fresh(m', next + 1)
  {
  }

  /** A tree that hands out no identity keeps every identity below `next`. */
  lemma FreshKept<K>(m: map<nat, Cell<K>>, next: nat, m': map<nat, Cell<K>>)
    requires Fresh(m, next) && m'.Keys <= m.Keys
    ensures Fresh(m', next)
  {
  }

  // ---------------------------------------------------------------------
  // Rotations.

  /** The parent's side of a rotation: whichever slot held `x` now holds `y`. */
  function Reslot<K>(c: Cell<K>, x: nat, y: nat): (r: Cell<K>)
    ensures c.left == Some(x) ==> r == c.(left := Some(y))
    ensures c.left != Some(x) ==> r == c.(right := Some(y))
  {
    if c.left == Some(x) then c.(left := Some(y)) else c.(right := Some(y))
  }

  /**
   * `m'` is `m` after `rotateLeft` at `x`, whose right child is `y` and
   * whose inner grandchild is `b`: `x` keeps its left child, takes `b` as
   * its right child and `y` as parent; `y` takes `x` as left child and the
   * parent of `x`; `b` moves below `x`; the parent of `x` now points at `y`.
   */
  ghost predicate RotatedLeftCells<K>(m: map<nat, Cell<K>>, x: nat, m': map<nat, Cell<K>>)
  {
    && x in m && m[x].right.Some? && m[x].right.value in m
    && var y := m[x].right.value;
    && var b := m[y].left;
    && var p := m[x].parent;
    && m'.Keys == m.Keys
    && m'[x] == m[x].(right := b, parent := Some(y))
    && m'[y] == m[y].(left := Some(x), parent := p)
    && (b.Some? ==> b.value in m && m'[b.value] == m[b.value].(parent := Some(x)))
    && (p.Some? ==> p.value in m && m'[p.value] == Reslot(m[p.value], x, y))
    && (forall i | i in m && i != x && i != y && Some(i) != b && Some(i) != p :: m'[i] == m[i])
  }

  /** The mirror of `RotatedLeftCells`: `m'` is `m` after `rotateRight` at `x`. */
  ghost predicate RotatedRightCells<K>(m: map<nat, Cell<K>>, x: nat, m': map<nat, Cell<K>>)
  {
    && x in m && m[x].left.Some? && m[x].left.value in m
    && var y := m[x].left.value;
    && var b := m[y].right;
    && var p := m[x].parent;
    && m'.Keys == m.Keys
    && m'[x] == m[x].(left := b, parent := Some(y))
    && m'[y] == m[y].(right := Some(x), parent := p)
    && (b.Some? ==> b.value in m && m'[b.value] == m[b.value].(parent := Some(x)))
    && (p.Some? ==> p.value in m && m'[p.value] == Reslot(m[p.value], x, y))
    && (forall i | i in m && i != x && i != y && Some(i) != b && Some(i) != p :: m'[i] == m[i])
  }

  /** The nodes a left rotation at `x` touches exist and are pairwise distinct. */
  ghost predicate LeftSpots<K>(m: map<nat, Cell<K>>, x: nat)
  {
    && x in m && m[x].right.Some?
    && var y := m[x].right.value;
    && y in m && y != x
    && (m[y].left.Some? ==> m[y].left.value in m && m[y].left.value != x && m[y].left.value != y)
    && (m[x].parent.Some? ==> var p := m[x].parent.value;
          && p in m && p != x && p != y && Some(p) != m[y].left
          && (m[p].left == Some(x) || m[p].right == Some(x)) && m[p].left != m[p].right)
  }

  /** The mirror of `LeftSpots`. */
  ghost predicate RightSpots<K>(m: map<nat, Cell<K>>, x: nat)
  {
    && x in m && m[x].left.Some?
    && var y := m[x].left.value;
    && y in m && y != x
    && (m[y].right.Some? ==> m[y].right.value in m && m[y].right.value != x && m[y].right.value != y)
    && (m[x].parent.Some? ==> var p := m[x].parent.value;
          && p in m && p != x && p != y && Some(p) != m[y].right
          && (m[p].left == Some(x) || m[p].right == Some(x)) && m[p].left != m[p].right)
  }

  lemma RotateLeftSpots<K>(m: map<nat, Cell<K>>, root: Option<nat>, L: Layout, x: nat)
    requires Shaped(m, root, L) && Linked(m, L) && x in m && m[x].right.Some?
    ensures LeftSpots(m, x) && RightSpine(m, L, x) && m[x].parent == L.at[x].up
  {
    var y := m[x].right.value;
    assert NodeOk(m, L, x) && NodeOk(m, L, y);
    ChildSmaller(m, L, x, y);
    if m[y].left.Some? {
      ChildSmaller(m, L, y, m[y].left.value);
    }
    if m[x].parent.Some? {
      var p := m[x].parent.value;
      assert NodeOk(m, L, p);
      ChildSmaller(m, L, p, x);
    }
  }

  lemma RotateRightSpots<K>(m: map<nat, Cell<K>>, root: Option<nat>, L: Layout, x: nat)
    requires Shaped(m, root, L) && Linked(m, L) && x in m && m[x].left.Some?
    ensures RightSpots(m, x) && LeftSpine(m, L, x) && m[x].parent == L.at[x].up
  {
    var y := m[x].left.value;
    assert NodeOk(m, L, x) && NodeOk(m, L, y);
    ChildSmaller(m, L, x, y);
    if m[y].right.Some? {
      ChildSmaller(m, L, y, m[y].right.value);
    }
    if m[x].parent.Some? {
      var p := m[x].parent.value;
      assert NodeOk(m, L, p);
      ChildSmaller(m, L, p, x);
    }
  }

  /** The cells of a left rotation are the child links `RotateLeftShaped` expects. */
  lemma LeftCellsLinks<K>(m: map<nat, Cell<K>>, L: Layout, x: nat, m': map<nat, Cell<K>>)
    requires RotatedLeftCells(m, x, m') && LeftSpots(m, x) && RightSpine(m, L, x) && m[x].parent == L.at[x].up
    ensures LeftRotatedLinks(m, L, x, m') && SameKeys(m, m')
  {
    var y := m[x].right.value;
    forall i | i in m && i != x && i != y && Some(i) != L.at[x].up
      ensures SameLinks(m, m', i)
    {
    }
  }

  /** The parent links after a left rotation agree with the rotated layout. */
  lemma LeftCellsLinked<K>(m: map<nat, Cell<K>>, L: Layout, x: nat, m': map<nat, Cell<K>>)
    requires Covers(m, L) && Linked(m, L)
    requires RotatedLeftCells(m, x, m') && LeftSpots(m, x) && RightSpine(m, L, x)
    ensures Covers(m', LeftRotation(m, L, x)) && Linked(m', LeftRotation(m, L, x))
  {
  }

  /** The mirror of `LeftCellsLinks`. */
  lemma RightCellsLinks<K>(m: map<nat, Cell<K>>, L: Layout, x: nat, m': map<nat, Cell<K>>)
    requires RotatedRightCells(m, x, m') && RightSpots(m, x) && LeftSpine(m, L, x) && m[x].parent == L.at[x].up
    ensures RightRotatedLinks(m, L, x, m') && SameKeys(m, m')
  {
    var y := m[x].left.value;
    forall i | i in m && i != x && i != y && Some(i) != L.at[x].up
      ensures SameLinks(m, m', i)
    {
    }
  }

  /** The mirror of `LeftCellsLinked`. */
  lemma RightCellsLinked<K>(m: map<nat, Cell<K>>, L: Layout, x: nat, m': map<nat, Cell<K>>)
    requires Covers(m, L) && Linked(m, L)
    requires RotatedRightCells(m, x, m') && RightSpots(m, x) && LeftSpine(m, L, x)
    ensures Covers(m', RightRotation(m, L, x)) && Linked(m', RightRotation(m, L, x))
  {
  }

  /**
   * `m', root', L'` is the tree `m, root, L` after a left rotation at `x`:
   * the rotated cells, `y` as the new root when `x` was the root, one linked
   * tree with the same in-order and the same in-order index for every node,
   * `y` with the span of `x`, and only `x`, `y` and `b` with other spans.
   */
  ghost predicate LeftTurned<K>(m: map<nat, Cell<K>>, root: Option<nat>, L: Layout, x: nat,
                             m': map<nat, Cell<K>>, root': Option<nat>, L': Layout)
  {
    && RotatedLeftCells(m, x, m') && Listed(m, L) && SameKeys(m, m')
    && var y := m[x].right.value;
    && root' == (if m[x].parent.None? then Some(y) else root)
    && Shaped(m', root', L') && Linked(m', L')
    && Keys(m', L') == Keys(m, L) && L'.order == L.order && L'.pos == L.pos
    && y in L'.at && x in L.at && L'.at[y] == L.at[x]
    && (forall i | i in m && i != x && i != y && Some(i) != m[y].left :: i in L.at && L'.at[i] == L.at[i])
  }

  /** The mirror of `LeftTurned`. */
  ghost predicate RightTurned<K>(m: map<nat, Cell<K>>, root: Option<nat>, L: Layout, x: nat,
                              m': map<nat, Cell<K>>, root': Option<nat>, L': Layout)
  {
    && RotatedRightCells(m, x, m') && Listed(m, L) && SameKeys(m, m')
    && var y := m[x].left.value;
    && root' == (if m[x].parent.None? then Some(y) else root)
    && Shaped(m', root', L') && Linked(m', L')
    && Keys(m', L') == Keys(m, L) && L'.order == L.order && L'.pos == L.pos
    && y in L'.at && x in L.at && L'.at[y] == L.at[x]
    && (forall i | i in m && i != x && i != y && Some(i) != m[y].right :: i in L.at && L'.at[i] == L.at[i])
  }

  /** A left rotation at `x` keeps one linked tree with the same in-order. */
  lemma RotateLeftLinked<K>(m: map<nat, Cell<K>>, root: Option<nat>, L: Layout, next: nat, x: nat,
                         m': map<nat, Cell<K>>, root': Option<nat>)
    returns (L': Layout)
    requires Shaped(m, root, L) && Linked(m, L) && RotatedLeftCells(m, x, m')
    requires root' == if m[x].parent.None? then m[x].right else root
    requires Fresh(m, next)
    ensures LeftTurned(m, root, L, x, m', root', L') && Fresh(m', next)
  {
    RotateLeftSpots(m, root, L, x);
    LeftCellsLinks(m, L, x, m');
    LeftCellsLinked(m, L, x, m');
    L' := LeftRotation(m, L, x);
    RotateLeftShaped(m, root, L, x, m', root');
    FreshKept(m, next, m');
  }

  /** The mirror of `RotateLeftLinked`. */
  lemma RotateRightLinked<K>(m: map<nat, Cell<K>>, root: Option<nat>, L: Layout, next: nat, x: nat,
                         m': map<nat, Cell<K>>, root': Option<nat>)
    returns (L': Layout)
    requires Shaped(m, root, L) && Linked(m, L) && RotatedRightCells(m, x, m')
    requires root' == if m[x].parent.None? then m[x].left else root
    requires Fresh(m, next)
    ensures RightTurned(m, root, L, x, m', root', L') && Fresh(m', next)
  {
    RotateRightSpots(m, root, L, x);
    RightCellsLinks(m, L, x, m');
    RightCellsLinked(m, L, x, m');
    L' := RightRotation(m, L, x);
    RotateRightShaped(m, root, L, x, m', root');
    FreshKept(m, next, m');
  }

  /**
   * The field writes of `rotateLeft(tree, x)` in the order the source makes
   * them (the write of `tree.root` is left to the caller). The moved child
   * `b` is re-parented whenever it exists, as `lib/splay-tree.js` and
   * `src/splay-tree.js` do; `lib/red-black-tree.js` re-parents it only when
   * it is a real node, so for a nil sentinel `b` this write is the model's.
   */
  method LeftRotateCells<K>(m: map<nat, Cell<K>>, x: nat) returns (m': map<nat, Cell<K>>)
    requires LeftSpots(m, x)
    ensures RotatedLeftCells(m, x, m')
  {
    var y := m[x].right.value;
    m' := m[x := m[x].(right := m[y].left)];
    if m'[y].left.Some? {
      var b := m'[y].left.value;
      m' := m'[b := m'[b].(parent := Some(x))];
    }
    m' := m'[y := m'[y].(parent := m'[x].parent)];
    if m'[x].parent.Some? {
      var p := m'[x].parent.value;
      if m'[p].left == Some(x) {
        m' := m'[p := m'[p].(left := Some(y))];
      } else {
        m' := m'[p := m'[p].(right := Some(y))];
      }
    }
    m' := m'[y := m'[y].(left := Some(x))];
    m' := m'[x := m'[x].(parent := Some(y))];
  }

  /** The field writes of `rotateRight(tree, x)`: the mirror of `LeftRotateCells`. */
  method RightRotateCells<K>(m: map<nat, Cell<K>>, x: nat) returns (m': map<nat, Cell<K>>)
    requires RightSpots(m, x)
    ensures RotatedRightCells(m, x, m')
  {
    var y := m[x].left.value;
    m' := m[x := m[x].(left := m[y].right)];
    if m'[y].right.Some? {
      var b := m'[y].right.value;
      m' := m'[b := m'[b].(parent := Some(x))];
    }
    m' := m'[y := m'[y].(parent := m'[x].parent)];
    if m'[x].parent.Some? {
      var p := m'[x].parent.value;
      if m'[p].left == Some(x) {
        m' := m'[p := m'[p].(left := Some(y))];
      } else {
        m' := m'[p := m'[p].(right := Some(y))];
      }
    }
    m' := m'[y := m'[y].(right := Some(x))];
    m' := m'[x := m'[x].(parent := Some(y))];
  }
}
