/**
 * The plain binary search tree of the modular generation: nodes carry a key
 * and two child links (the parent link a node could carry is never set), and
 * the tree keeps a `root` and a `nodeCount`.
 */
module LibBinarySearchTree {
  import opened Common
  import opened Arena
  import opened TreeEdit
  import opened TreeSearch
  import opened TreeRemoval

  /** Every node identity was handed out before `next`, and no node has a parent link. */
  ghost predicate Owned(m: map<nat, Cell<int>>, next: nat)
  {
    forall i | i in m :: i < next && m[i].parent.None?
  }

  lemma OwnedHang(m: map<nat, Cell<int>>, next: nat, q: nat, left: bool, c: Cell<int>)
    requires Owned(m, next) && q in m && c.parent.None?
    ensures Owned(m[q := if left then m[q].(left := Some(next)) else m[q].(right := Some(next))][next := c], next + 1)
  {
  }

  lemma OwnedDrop(m: map<nat, Cell<int>>, next: nat, p: nat, n: nat)
    requires Owned(m, next) && p in m
    ensures Owned(m[p := RemoveChild(m[p], n)] - {n}, next)
  {
  }

  lemma OwnedTookOver(m: map<nat, Cell<int>>, next: nat, n: nat, c: nat)
    requires Owned(m, next) && n in m && c in m
    ensures Owned(TookOver(m, n, c), next)
  {
  }

  lemma OwnedRekey(m: map<nat, Cell<int>>, next: nat, n: nat, k: int)
    requires Owned(m, next) && n in m
    ensures Owned(m[n := m[n].(key := k)], next)
  {
  }

  /** `current.left = newNode` (or `.right`) with a fresh identity enters `key` next to `q`. */
  lemma HangStep(m: map<nat, Cell<int>>, root: Option<nat>, L: Layout, next: nat, q: nat, left: bool, key: int,
                 m': map<nat, Cell<int>>)
    returns (L': Layout)
    requires Shaped(m, root, L) && Owned(m, next) && q in m && (if left then m[q].left.None? else m[q].right.None?)
    requires m' == m[q := if left then m[q].(left := Some(next)) else m[q].(right := Some(next))][next := Cell(key, None, None, None)]
    ensures Shaped(m', root, L') && Owned(m', next + 1) && |L'.order| == |L.order| + 1
    ensures var t := if left then L.pos[q] else L.pos[q] + 1;
      t <= |Keys(m, L)| && Keys(m', L') == Keys(m, L)[..t] + [key] + Keys(m, L)[t..]
  {
    OwnedHang(m, next, q, left, Cell(key, None, None, None));
    L' := AttachStep(m, root, L, q, next, left, Cell(key, None, None, None));
  }

  /** `removeNodeWithNoChildren` below a parent: `parent.removeChild(node)`. */
  lemma UnhookStep(m: map<nat, Cell<int>>, root: Option<nat>, L: Layout, next: nat, n: nat, p: nat,
                   m': map<nat, Cell<int>>)
    returns (L': Layout)
    requires Shaped(m, root, L) && Owned(m, next) && n in m && m[n].left.None? && m[n].right.None?
    requires L.at[n].up == Some(p) && p in m && m' == m[p := RemoveChild(m[p], n)] - {n}
    ensures Shaped(m', root, L') && Owned(m', next) && Deleted(m, L, n, m', L')
  {
    assert NodeOk(m, L, n);
    L' := DropStep(m, root, L, n);
    OwnedDrop(m, next, p, n);
    DropKept(m, L, n, p, m', L');
    SlotDeleted(m, L, n, m', L');
  }

  /** `removeNodeWithNoChildren` at the root: the tree becomes empty. */
  lemma UprootStep(m: map<nat, Cell<int>>, root: Option<nat>, L: Layout, next: nat, n: nat,
                   m': map<nat, Cell<int>>, L': Layout)
    requires Shaped(m, root, L) && n in m && m[n].left.None? && m[n].right.None? && L.at[n].up.None?
    requires m' == map[] && L' == Layout([], map[], map[])
    ensures Shaped(m', None, L') && Owned(m', next) && Deleted(m, L, n, m', L')
  {
    DropLastShaped(m, root, L, n);
    assert NodeOk(m, L, n);
  }

  /** `removeNodeWithLeftOnly` and its mirror: `node` takes over its only child `c`. */
  lemma TakeOverStep(m: map<nat, Cell<int>>, root: Option<nat>, L: Layout, next: nat, n: nat, c: nat,
                     m': map<nat, Cell<int>>)
    returns (L': Layout)
    requires Shaped(m, root, L) && Owned(m, next) && n in m && c in m
    requires (m[n].left == Some(c) && m[n].right.None?) || (m[n].right == Some(c) && m[n].left.None?)
    requires m' == TookOver(m, n, c)
    ensures Shaped(m', root, L') && Owned(m', next) && Deleted(m, L, n, m', L')
  {
    L' := AbsorbStep(m, root, L, n, c);
    assert NodeOk(m, L, n);
    OwnedTookOver(m, next, n, c);
    TookOverKept(m, L, n, c, m', L');
    SlotDeleted(m, L, n, m', L');
  }

  /**
   * The two-children case of `deleteNode`: once the successor node `x` is
   * deleted, writing its key into `n` completes the deletion of `n`.
   */
  lemma SuccessorStep(m: map<nat, Cell<int>>, root: Option<nat>, L: Layout, next: nat, n: nat, x: nat,
                      m1: map<nat, Cell<int>>, L1: Layout, m': map<nat, Cell<int>>)
    requires Shaped(m, root, L) && n in m && x in m && m[n].left.Some? && m[n].right.Some?
    requires SuccessorOf(m, L, n, x)
    requires Shaped(m1, root, L1) && Owned(m1, next) && Deleted(m, L, x, m1, L1)
    requires n in m1 && m' == m1[n := m1[n].(key := m[x].key)]
    ensures Shaped(m', root, L1) && Owned(m', next) && Deleted(m, L, n, m', L1)
  {
    assert NodeOk(m, L, n);
    Rekeyed(m1, root, L1, n, m[x].key);
    OwnedRekey(m1, next, n, m[x].key);
    SuccessorDeleted(m, L, n, x, m1, L1, m');
  }

  class BinarySearchTree {
    var nodes: map<nat, Cell<int>>
    var root: Option<nat>
    var nodeCount: int
    /** The identity the next `new BinaryTreeNode` receives. */
    var next: nat
    /** The in-order layout of `nodes`. */
    ghost var L: Layout

    /** One tree of nodes without parent links, every identity below `next`. */
    ghost predicate Tree()
      reads this
    {
      && Shaped(nodes, root, L)
      && Owned(nodes, next)
    }

    ghost predicate Valid()
      reads this
    {
      Tree() && nodeCount == |L.order|
    }

    /** The keys in in-order. */
    ghost function Contents(): seq<int>
      reads this
      requires Tree()
    {
      Keys(nodes, L)
    }

    constructor ()
      ensures Valid() && root.None? && nodeCount == 0 && Contents() == []
    {
      nodes := map[];
      root := None;
      nodeCount := 0;
      next := 0;
      L := Layout([], map[], map[]);
    }

    /**
     * Descend by comparison and hang a new leaf on the first missing child
     * link; an equal key stops the descent and adds nothing.
     */
    method Add(key: int) returns (r: bool)
      requires Valid()
      modifies this
      ensures Valid()
      ensures r ==> nodeCount == old(nodeCount) + 1
      ensures r ==> Inserted(old(Contents()), key, Contents())
      ensures !r ==> key in old(Contents())
      ensures !r ==> nodes == old(nodes) && root == old(root) && nodeCount == old(nodeCount) && L == old(L)
      ensures Ascending(old(Contents())) ==> (r <==> key !in old(Contents())) && Ascending(Contents())
    {
      ghost var s := Contents();
      if root.None? {
        Plant(key);
        assert Contents() == s[..0] + [key] + s[0..];
        return true;
      }
      var current := root.value;
      while true
        invariant Valid() && nodes == old(nodes) && root == old(root) && L == old(L)
        invariant nodeCount == old(nodeCount) && next == old(next) && s == Contents()
        invariant current in nodes
        invariant Ascending(s) ==> Outside(s, L.at[current].lo, L.at[current].hi, key)
        decreases L.at[current].hi - L.at[current].lo
      {
        assert NodeOk(nodes, L, current);
        if Compare(key, nodes[current].key) < 0 {
          if nodes[current].left.None? {
            HangBelow(current, true, key);
            return true;
          }
          if Ascending(s) {
            GoLeft(nodes, L, current, key);
          }
          current := nodes[current].left.value;
        } else if Compare(key, nodes[current].key) > 0 {
          if nodes[current].right.None? {
            HangBelow(current, false, key);
            return true;
          }
          if Ascending(s) {
            GoRight(nodes, L, current, key);
          }
          current := nodes[current].right.value;
        } else {
          KeyAt(nodes, L, current);
          return false;
        }
      }
    }

    /** `this.root = newNode` on an empty tree, then `nodeCount++`. */
    method Plant(key: int)
      requires Valid() && root.None?
      modifies this
      ensures Valid() && nodeCount == old(nodeCount) + 1 && Contents() == [key]
    {
      var n := next;
      var cell := Cell(key, None, None, None);
      PlantShaped(n, cell);
      nodeCount := nodeCount + 1;
      nodes := map[n := cell];
      L := Layout([n], map[n := 0], map[n := Span(0, 1, None)]);
      root := Some(n);
      next := next + 1;
    }

    /**
     * The end of the descent of `add`: `key` compares below (or above) the
     * key of `node`, whose child link on that side is missing.
     */
    method HangBelow(node: nat, left: bool, key: int)
      requires Valid() && node in nodes
      requires if left then nodes[node].left.None? && key < nodes[node].key else nodes[node].right.None? && key > nodes[node].key
      requires Ascending(Contents()) ==> Outside(Contents(), L.at[node].lo, L.at[node].hi, key)
      modifies this
      ensures Valid() && nodeCount == old(nodeCount) + 1 && Inserted(old(Contents()), key, Contents())
      ensures Ascending(old(Contents())) ==> key !in old(Contents()) && Ascending(Contents())
    {
      ghost var s := Contents();
      assert NodeOk(nodes, L, node);
      if Ascending(s) {
        if left {
          GoLeft(nodes, L, node, key);
        } else {
          GoRight(nodes, L, node, key);
        }
      }
      ghost var t := if left then L.pos[node] else L.pos[node] + 1;
      Hang(node, left, key);
      if Ascending(s) {
        AscendingInsert(s, t, key);
      }
    }

    /** `current.left = newNode` or `current.right = newNode`, then `nodeCount++`. */
    method Hang(q: nat, left: bool, key: int)
      requires Valid() && q in nodes && (if left then nodes[q].left.None? else nodes[q].right.None?)
      modifies this
      ensures Valid() && nodeCount == old(nodeCount) + 1
      ensures var t := if left then old(L.pos[q]) else old(L.pos[q]) + 1;
        t <= |old(Contents())| && Contents() == old(Contents())[..t] + [key] + old(Contents())[t..]
    {
      var m' := nodes[q := if left then nodes[q].(left := Some(next)) else nodes[q].(right := Some(next))]
                     [next := Cell(key, None, None, None)];
      L := HangStep(nodes, root, L, next, q, left, key, m');
      nodes := m';
      nodeCount := nodeCount + 1;
      next := next + 1;
    }

    /**
     * The comparison-directed descent. A found key is always stored; on an
     * ordered tree an absent key is never reported.
     */
    method Contains(key: int) returns (r: bool)
      requires Valid()
      ensures r ==> key in Contents()
      ensures Ascending(Contents()) ==> (r <==> key in Contents())
    {
      if root.None? {
        return false;
      }
      var current := root.value;
      while true
        invariant current in nodes
        invariant Ascending(Contents()) ==> Outside(Contents(), L.at[current].lo, L.at[current].hi, key)
        decreases L.at[current].hi - L.at[current].lo
      {
        assert NodeOk(nodes, L, current);
        if Compare(key, nodes[current].key) < 0 {
          if Ascending(Contents()) {
            GoLeft(nodes, L, current, key);
          }
          if nodes[current].left.None? {
            return false;
          }
          current := nodes[current].left.value;
        } else if Compare(key, nodes[current].key) > 0 {
          if Ascending(Contents()) {
            GoRight(nodes, L, current, key);
          }
          if nodes[current].right.None? {
            return false;
          }
          current := nodes[current].right.value;
        } else {
          KeyAt(nodes, L, current);
          return true;
        }
      }
    }

    /** The key of the rightmost node: the last in-order key, the largest on an ordered tree. */
    method FindMaximum() returns (r: Option<int>)
      requires Valid()
      ensures r.None? <==> |Contents()| == 0
      ensures r.Some? ==> r.value == Contents()[|Contents()| - 1]
      ensures r.Some? && Ascending(Contents()) ==> forall j | 0 <= j < |Contents()| :: Contents()[j] <= r.value
    {
      if root.None? {
        return None;
      }
      var current := root.value;
      while true
        invariant current in nodes && L.at[current].hi == |L.order|
        decreases L.at[current].hi - L.at[current].lo
      {
        assert NodeOk(nodes, L, current);
        if nodes[current].right.Some? {
          current := nodes[current].right.value;
        } else {
          Rightmost(nodes, L, current);
          return Some(nodes[current].key);
        }
      }
    }

    /** The key of the leftmost node: the first in-order key, the least on an ordered tree. */
    method FindMinimum() returns (r: Option<int>)
      requires Valid()
      ensures r.None? <==> |Contents()| == 0
      ensures r.Some? ==> r.value == Contents()[0]
      ensures r.Some? && Ascending(Contents()) ==> forall j | 0 <= j < |Contents()| :: r.value <= Contents()[j]
    {
      if root.None? {
        return None;
      }
      var current := root.value;
      while true
        invariant current in nodes && L.at[current].lo == 0
        decreases L.at[current].hi - L.at[current].lo
      {
        assert NodeOk(nodes, L, current);
        if nodes[current].left.Some? {
          current := nodes[current].left.value;
        } else {
          Leftmost(nodes, L, current);
          return Some(nodes[current].key);
        }
      }
    }

    method IsEmpty() returns (r: bool)
      requires Valid()
      ensures r <==> |Contents()| == 0
    {
      return root.None?;
    }

    method Size() returns (r: int)
      requires Valid()
      ensures r == |Contents()|
    {
      return nodeCount;
    }

    /**
     * Descend to the node holding `key`, remembering its parent, and delete
     * that node. One occurrence of the key leaves the tree; the in-order is
     * only guaranteed to stay ascending when the node is not the two-children
     * case whose right child lacks a left child.
     */
    method Remove(key: int) returns (r: bool)
      requires Valid()
      modifies this
      ensures Valid()
      ensures !r ==> nodes == old(nodes) && root == old(root) && nodeCount == old(nodeCount) && L == old(L)
      ensures !r && Ascending(old(Contents())) ==> key !in old(Contents())
      ensures r ==> key in old(Contents()) && nodeCount == old(nodeCount) - 1
      ensures r ==> multiset(Contents()) == old(multiset(Contents())) - multiset{key}
      ensures r && Ascending(old(Contents())) && old(forall i | i in nodes && nodes[i].key == key :: Plain(nodes, i))
        ==> Ascending(Contents())
    {
      if root.None? {
        return false;
      }
      ghost var s := Contents();
      var parent: Option<nat> := None;
      var current := root.value;
      while true
        invariant Valid() && nodes == old(nodes) && root == old(root) && L == old(L) && nodeCount == old(nodeCount)
        invariant s == Contents()
        invariant current in nodes && parent == L.at[current].up
        invariant Ascending(s) ==> Outside(s, L.at[current].lo, L.at[current].hi, key)
        decreases L.at[current].hi - L.at[current].lo
      {
        assert NodeOk(nodes, L, current);
        if Compare(key, nodes[current].key) < 0 {
          if Ascending(s) {
            GoLeft(nodes, L, current, key);
          }
          if nodes[current].left.None? {
            return false;
          }
          parent := Some(current);
          current := nodes[current].left.value;
        } else if Compare(key, nodes[current].key) > 0 {
          if Ascending(s) {
            GoRight(nodes, L, current, key);
          }
          if nodes[current].right.None? {
            return false;
          }
          parent := Some(current);
          current := nodes[current].right.value;
        } else {
          KeyAt(nodes, L, current);
          RemoveFound(current, parent);
          return true;
        }
      }
    }

    /** The found branch of `remove`: `nodeCount--` and `deleteNode(current, parent)`. */
    method RemoveFound(current: nat, parent: Option<nat>)
      requires Valid() && current in nodes && parent == L.at[current].up
      modifies this
      ensures Valid() && nodeCount == old(nodeCount) - 1
      ensures multiset(Contents()) == old(multiset(Contents())) - multiset{old(nodes[current].key)}
      ensures Ascending(old(Contents())) && old(Plain(nodes, current)) ==> Ascending(Contents())
    {
      ghost var s := Contents();
      ghost var t := L.pos[current];
      ghost var plain := Plain(nodes, current);
      KeyAt(nodes, L, current);
      nodeCount := nodeCount - 1;
      DeleteNode(current, parent);
      if Ascending(s) && plain {
        AscendingDelete(s, t);
      }
    }

    /**
     * `deleteNode(node, parent)`: a leaf is unhooked from its parent (or
     * empties the tree); a node with one child takes that child's key and
     * links; a node with two children takes the key of the node chosen by
     * `findParentOfMinimum`, which is deleted first.
     */
    method DeleteNode(node: nat, parent: Option<nat>)
      requires Tree() && node in nodes && parent == L.at[node].up
      modifies this
      decreases L.at[node].hi - L.at[node].lo, 1
      ensures Tree() && nodeCount == old(nodeCount) && (parent.Some? ==> root == old(root))
      ensures Deleted(old(nodes), old(L), node, nodes, L)
    {
      ChildrenIn(nodes, root, L, node);
      if nodes[node].left.None? && nodes[node].right.None? {
        RemoveLeaf(node, parent);
      } else if nodes[node].left.None? || nodes[node].right.None? {
        TakeOver(node, if nodes[node].left.Some? then nodes[node].left.value else nodes[node].right.value);
      } else {
        ReplaceBySuccessor(node);
      }
    }

    /**
     * The two-children case of `deleteNode`: the node `findParentOfMinimum`
     * leads to is deleted and its key is written into `node`.
     */
    method ReplaceBySuccessor(node: nat)
      requires Tree() && node in nodes && nodes[node].left.Some? && nodes[node].right.Some?
      modifies this
      decreases L.at[node].hi - L.at[node].lo, 0
      ensures Tree() && nodeCount == old(nodeCount) && root == old(root)
      ensures Deleted(old(nodes), old(L), node, nodes, L)
    {
      SuccessorChoice(nodes, root, L, node);
      var minParent := FindParentOfMinimum(nodes, root, L, nodes[node].right.value, node);
      // `minParent` always has a left child here, so the `minParent.right`
      // alternative of the source is never taken.
      var minNode := nodes[minParent].left.value;
      var newKey := nodes[minNode].key;
      ghost var m0, L0 := nodes, L;
      DeleteNode(minNode, Some(minParent));
      var m' := nodes[node := nodes[node].(key := newKey)];
      SuccessorStep(m0, root, L0, next, node, minNode, nodes, L, m');
      nodes := m';
    }

    /** `removeNodeWithNoChildren`: `parent.removeChild(node)`, or `root = undefined`. */
    method RemoveLeaf(node: nat, parent: Option<nat>)
      requires Tree() && node in nodes && parent == L.at[node].up
      requires nodes[node].left.None? && nodes[node].right.None?
      modifies this
      ensures Tree() && nodeCount == old(nodeCount) && (parent.Some? ==> root == old(root))
      ensures Deleted(old(nodes), old(L), node, nodes, L)
    {
      if parent.Some? {
        var p := parent.value;
        ParentIn(nodes, root, L, node);
        var m' := nodes[p := RemoveChild(nodes[p], node)] - {node};
        L := UnhookStep(nodes, root, L, next, node, p, m');
        nodes := m';
      } else {
        UprootStep(nodes, root, L, next, node, map[], Layout([], map[], map[]));
        root := None;
        nodes := map[];
        L := Layout([], map[], map[]);
      }
    }

    /**
     * `removeNodeWithLeftOnly` and `removeNodeWithRightOnly`: `node` copies
     * the key and both links of its only child `c`.
     */
    method TakeOver(node: nat, c: nat)
      requires Tree() && node in nodes && c in nodes
      requires (nodes[node].left == Some(c) && nodes[node].right.None?) || (nodes[node].right == Some(c) && nodes[node].left.None?)
      modifies this
      ensures Tree() && nodeCount == old(nodeCount) && root == old(root)
      ensures Deleted(old(nodes), old(L), node, nodes, L)
    {
      var m' := TookOver(nodes, node, c);
      L := TakeOverStep(nodes, root, L, next, node, c, m');
      nodes := m';
    }
  }
}
