/**
 * The self-contained binary search tree of the older generation. Its nodes
 * carry only a key and two child links, `add` returns nothing, and
 * `remove` has paths that end in a `TypeError`: removing a root that is a
 * leaf calls `removeChild` on an undefined parent, the right-only case
 * reads through the missing left child when the right child has children,
 * and the two-children case calls a `getLeft` that nodes do not have when
 * the right child has a left child. Those paths are modelled as the
 * outcome `Threw`, with the state the source leaves behind at the throw.
 */
module SrcBinarySearchTree {
  import opened Common
  import opened Arena
  import opened TreeEdit
  import opened TreeSearch
  import opened Traversal
  import opened TreeRemoval
  import opened LibBinarySearchTree

  /** What a call of `remove` ends with. */
  datatype Removal = Absent | Removed | Threw

  /**
   * The one shape whose removal neither throws nor keeps the tree: two
   * children, and a right child with a right child but no left child. The
   * source unhooks that right child together with its right subtree.
   */
  ghost predicate Drops(m: map<nat, Cell<int>>, n: nat)
    requires n in m
  {
    && m[n].left.Some? && m[n].right.Some? && m[n].right.value in m
    && m[m[n].right.value].left.None? && m[m[n].right.value].right.Some?
  }

  /** `deleteNode` does not complete on these shapes: a `TypeError` is thrown first. */
  ghost predicate Throws(m: map<nat, Cell<int>>, root: Option<nat>, n: nat)
    requires n in m
  {
    || (m[n].left.None? && m[n].right.None? && root == Some(n))
    || (m[n].left.None? && m[n].right.Some? && m[n].right.value in m
          && (m[m[n].right.value].left.Some? || m[m[n].right.value].right.Some?))
    || (m[n].left.Some? && m[n].right.Some? && m[n].right.value in m && m[m[n].right.value].left.Some?)
  }

  /** `s'` is `s`, or `s` with index `t` overwritten by one of its own elements. */
  ghost predicate Overwritten(s: seq<int>, s': seq<int>, t: nat)
  {
    s' == s || exists u | 0 <= u < |s| :: t < |s| && s' == s[t := s[u]]
  }

  /**
   * Two children, a right child `r` that is a leaf: unhooking `r` and writing
   * its key into `n` takes exactly the slot of `n` out of the in-order.
   */
  lemma LeafSuccessorStep(m: map<nat, Cell<int>>, root: Option<nat>, L: Layout, next: nat, n: nat, r: nat,
                          m1: map<nat, Cell<int>>, L1: Layout, m': map<nat, Cell<int>>)
    requires Shaped(m, root, L) && n in m && m[n].left.Some? && m[n].right == Some(r) && r in m
    requires m[r].left.None? && m[r].right.None?
    requires Shaped(m1, root, L1) && Owned(m1, next) && Deleted(m, L, r, m1, L1)
    requires n in m1 && m' == m1[n := m1[n].(key := m[r].key)]
    ensures Shaped(m', root, L1) && Owned(m', next) && |L1.order| + 1 == |L.order|
    ensures L.pos[n] + 1 < |Keys(m, L)| && Keys(m', L1) == Keys(m, L)[..L.pos[n]] + Keys(m, L)[L.pos[n] + 1..]
  {
    LeafSlots(m, root, L, n, r, m1, L1);
    Rekeyed(m1, root, L1, n, m[r].key);
    OwnedRekey(m1, next, n, m[r].key);
    OverwriteByNext(Keys(m, L), L.pos[n]);
  }

  /** Where the slots of `n` and of its leaf right child `r` sit before and after `r` is unhooked. */
  lemma LeafSlots(m: map<nat, Cell<int>>, root: Option<nat>, L: Layout, n: nat, r: nat,
                  m1: map<nat, Cell<int>>, L1: Layout)
    requires Shaped(m, root, L) && n in m && m[n].left.Some? && m[n].right == Some(r) && r in m
    requires m[r].left.None? && m[r].right.None?
    requires Shaped(m1, root, L1) && Deleted(m, L, r, m1, L1) && n in m1
    ensures L.pos[n] + 1 < |Keys(m, L)| && L1.pos[n] == L.pos[n] && L1.pos[n] < |Keys(m1, L1)|
    ensures Keys(m, L)[L.pos[n] + 1] == m[r].key
    ensures Keys(m1, L1) == Keys(m, L)[..L.pos[n] + 1] + Keys(m, L)[L.pos[n] + 2..]
  {
    assert NodeOk(m, L, n);
    assert NodeOk(m, L, r);
    assert Plain(m, r);
    KeyAt(m, L, r);
  }

  /** A node with one child `c` taking over `c`'s key and children: the slot of `n` leaves the in-order. */
  lemma OneChildStep(m: map<nat, Cell<int>>, root: Option<nat>, L: Layout, next: nat, n: nat, c: nat,
                     m': map<nat, Cell<int>>)
    returns (L': Layout)
    requires Shaped(m, root, L) && Owned(m, next) && n in m && c in m
    requires (m[n].left == Some(c) && m[n].right.None?) || (m[n].right == Some(c) && m[n].left.None?)
    requires m' == TookOver(m, n, c)
    ensures Shaped(m', root, L') && Owned(m', next) && |L'.order| + 1 == |L.order|
    ensures L.pos[n] < |Keys(m, L)| && Keys(m', L') == Keys(m, L)[..L.pos[n]] + Keys(m, L)[L.pos[n] + 1..]
  {
    assert NodeOk(m, L, n);
    L' := TakeOverStep(m, root, L, next, n, c, m');
  }

  /** `node.removeChild(node.right)` and `node.key = ` the removed key, for a right child that is a leaf. */
  lemma RightLeafStep(m: map<nat, Cell<int>>, root: Option<nat>, L: Layout, next: nat, n: nat, r: nat,
                      m1: map<nat, Cell<int>>, m': map<nat, Cell<int>>)
    returns (L': Layout)
    requires Shaped(m, root, L) && Owned(m, next) && n in m && m[n].left.Some? && m[n].right == Some(r) && r in m
    requires m[r].left.None? && m[r].right.None?
    requires m1 == m[n := RemoveChild(m[n], r)] - {r} && m' == m1[n := m1[n].(key := m[r].key)]
    ensures Shaped(m', root, L') && Owned(m', next) && |L'.order| + 1 == |L.order|
    ensures L.pos[n] < |Keys(m, L)| && Keys(m', L') == Keys(m, L)[..L.pos[n]] + Keys(m, L)[L.pos[n] + 1..]
  {
    assert NodeOk(m, L, n) && NodeOk(m, L, r);
    L' := UnhookStep(m, root, L, next, r, n, m1);
    LeafSuccessorStep(m, root, L, next, n, r, m1, L', m');
  }

  class BinarySearchTree {
    var nodes: map<nat, Cell<int>>
    var root: Option<nat>
    var nodeCount: int
    /** The identity the next `new Node` receives. */
    var next: nat
    /** The in-order layout of `nodes`. */
    ghost var L: Layout

    /** One tree of nodes without parent links, every identity below `next`. */
    ghost predicate Tree()
      reads this
    {
      && Shaped(nodes, root, L)
      && Owned(nodes, next)
    }

    ghost predicate Valid()
      reads this
    {
      Tree() && nodeCount == |L.order|
    }

    /** The keys in in-order. */
    ghost function Contents(): seq<int>
      reads this
      requires Tree()
    {
      Keys(nodes, L)
    }

    constructor ()
      ensures Valid() && root.None? && nodeCount == 0 && Contents() == []
    {
      nodes := map[];
      root := None;
      nodeCount := 0;
      next := 0;
      L := Layout([], map[], map[]);
    }

    /**
     * Descend by comparison and hang a new leaf on the first missing child
     * link; an equal key breaks out of the descent and adds nothing.
     */
    method Add(key: int)
      requires Valid()
      modifies this
      ensures Valid()
      ensures key !in old(Contents()) ==> nodeCount == old(nodeCount) + 1
      ensures nodeCount == old(nodeCount) + 1 ==> Inserted(old(Contents()), key, Contents())
      ensures nodeCount == old(nodeCount) || nodeCount == old(nodeCount) + 1
      ensures nodeCount == old(nodeCount) ==>
        key in old(Contents()) && nodes == old(nodes) && root == old(root) && L == old(L)
      ensures Ascending(old(Contents())) ==>
        (nodeCount == old(nodeCount) + 1 <==> key !in old(Contents())) && Ascending(Contents())
    {
      ghost var s := Contents();
      if root.None? {
        Plant(key);
        assert Contents() == s[..0] + [key] + s[0..];
        return;
      }
      var current := root.value;
      while true
        invariant Valid() && nodes == old(nodes) && root == old(root) && L == old(L)
        invariant nodeCount == old(nodeCount) && next == old(next) && s == Contents()
        invariant current in nodes
        invariant Ascending(s) ==> Outside(s, L.at[current].lo, L.at[current].hi, key)
        decreases L.at[current].hi - L.at[current].lo
      {
        assert NodeOk(nodes, L, current);
        if Compare(key, nodes[current].key) < 0 {
          if nodes[current].left.None? {
            HangBelow(current, true, key);
            return;
          }
          if Ascending(s) {
            GoLeft(nodes, L, current, key);
          }
          current := nodes[current].left.value;
        } else if Compare(key, nodes[current].key) > 0 {
          if nodes[current].right.None? {
            HangBelow(current, false, key);
            return;
          }
          if Ascending(s) {
            GoRight(nodes, L, current, key);
          }
          current := nodes[current].right.value;
        } else {
          KeyAt(nodes, L, current);
          break;
        }
      }
    }

    /** `this.root = newNode` on an empty tree, after `nodeCount++`. */
    method Plant(key: int)
      requires Valid() && root.None?
      modifies this
      ensures Valid() && nodeCount == old(nodeCount) + 1 && Contents() == [key]
    {
      var n := next;
      var cell := Cell(key, None, None, None);
      PlantShaped(n, cell);
      nodeCount := nodeCount + 1;
      nodes := map[n := cell];
      L := Layout([n], map[n := 0], map[n := Span(0, 1, None)]);
      root := Some(n);
      next := next + 1;
    }

    /**
     * The end of the descent of `add`: `key` compares below (or above) the
     * key of `node`, whose child link on that side is missing.
     */
    method HangBelow(node: nat, left: bool, key: int)
      requires Valid() && node in nodes
      requires if left then nodes[node].left.None? && key < nodes[node].key else nodes[node].right.None? && key > nodes[node].key
      requires Ascending(Contents()) ==> Outside(Contents(), L.at[node].lo, L.at[node].hi, key)
      modifies this
      ensures Valid() && nodeCount == old(nodeCount) + 1 && Inserted(old(Contents()), key, Contents())
      ensures Ascending(old(Contents())) ==> key !in old(Contents()) && Ascending(Contents())
    {
      ghost var s := Contents();
      assert NodeOk(nodes, L, node);
      if Ascending(s) {
        if left {
          GoLeft(nodes, L, node, key);
        } else {
          GoRight(nodes, L, node, key);
        }
      }
      ghost var t := if left then L.pos[node] else L.pos[node] + 1;
      Hang(node, left, key);
      if Ascending(s) {
        AscendingInsert(s, t, key);
      }
    }

    /** `current.left = newNode` or `current.right = newNode`, then `nodeCount++`. */
    method Hang(q: nat, left: bool, key: int)
      requires Valid() && q in nodes && (if left then nodes[q].left.None? else nodes[q].right.None?)
      modifies this
      ensures Valid() && nodeCount == old(nodeCount) + 1
      ensures var t := if left then old(L.pos[q]) else old(L.pos[q]) + 1;
        t <= |old(Contents())| && Contents() == old(Contents())[..t] + [key] + old(Contents())[t..]
    {
      var m' := nodes[q := if left then nodes[q].(left := Some(next)) else nodes[q].(right := Some(next))]
                     [next := Cell(key, None, None, None)];
      L := HangStep(nodes, root, L, next, q, left, key, m');
      nodes := m';
      nodeCount := nodeCount + 1;
      next := next + 1;
    }

    /**
     * The comparison-directed descent. A found key is always stored; on an
     * ordered tree an absent key is never reported.
     */
    method Contains(key: int) returns (r: bool)
      requires Valid()
      ensures r ==> key in Contents()
      ensures Ascending(Contents()) ==> (r <==> key in Contents())
    {
      if root.None? {
        return false;
      }
      var current := root.value;
      while true
        invariant current in nodes
        invariant Ascending(Contents()) ==> Outside(Contents(), L.at[current].lo, L.at[current].hi, key)
        decreases L.at[current].hi - L.at[current].lo
      {
        assert NodeOk(nodes, L, current);
        if Compare(key, nodes[current].key) < 0 {
          if Ascending(Contents()) {
            GoLeft(nodes, L, current, key);
          }
          if nodes[current].left.None? {
            return false;
          }
          current := nodes[current].left.value;
        } else if Compare(key, nodes[current].key) > 0 {
          if Ascending(Contents()) {
            GoRight(nodes, L, current, key);
          }
          if nodes[current].right.None? {
            return false;
          }
          current := nodes[current].right.value;
        } else {
          KeyAt(nodes, L, current);
          return true;
        }
      }
    }

    /** The key of the rightmost node: the last in-order key, the largest on an ordered tree. */
    method FindMaximum() returns (r: Option<int>)
      requires Valid()
      ensures r.None? <==> |Contents()| == 0
      ensures r.Some? ==> r.value == Contents()[|Contents()| - 1]
      ensures r.Some? && Ascending(Contents()) ==> forall j | 0 <= j < |Contents()| :: Contents()[j] <= r.value
    {
      if root.None? {
        return None;
      }
      var current := root.value;
      while true
        invariant current in nodes && L.at[current].hi == |L.order|
        decreases L.at[current].hi - L.at[current].lo
      {
        assert NodeOk(nodes, L, current);
        if nodes[current].right.Some? {
          current := nodes[current].right.value;
        } else {
          Rightmost(nodes, L, current);
          return Some(nodes[current].key);
        }
      }
    }

    /** The key of the leftmost node: the first in-order key, the least on an ordered tree. */
    method FindMinimum() returns (r: Option<int>)
      requires Valid()
      ensures r.None? <==> |Contents()| == 0
      ensures r.Some? ==> r.value == Contents()[0]
      ensures r.Some? && Ascending(Contents()) ==> forall j | 0 <= j < |Contents()| :: r.value <= Contents()[j]
    {
      if root.None? {
        return None;
      }
      var current := root.value;
      while true
        invariant current in nodes && L.at[current].lo == 0
        decreases L.at[current].hi - L.at[current].lo
      {
        assert NodeOk(nodes, L, current);
        if nodes[current].left.Some? {
          current := nodes[current].left.value;
        } else {
          Leftmost(nodes, L, current);
          return Some(nodes[current].key);
        }
      }
    }

    /** `!this.root`. */
    method IsEmpty() returns (r: bool)
      requires Valid()
      ensures r <==> |Contents()| == 0
      ensures r <==> root.None?
    {
      return root.None?;
    }

    method Size() returns (r: int)
      requires Valid()
      ensures r == |Contents()|
    {
      return nodeCount;
    }

    /** `traversePreOrder`: every key once, each node before its subtrees. */
    method TraversePreOrder() returns (out: seq<int>)
      requires Valid()
      ensures out == PreOrder(View(nodes, L, root))
      ensures multiset(out) == multiset(Contents()) && |out| == nodeCount
    {
      out := Traversal.TraversePreOrder(nodes, root, L);
      InOrderIsKeys(nodes, root, L);
      SameVisits(View(nodes, L, root));
      VisitCount(View(nodes, L, root));
    }

    /** `traverseInOrder`: the keys in in-order, ascending on an ordered tree. */
    method TraverseInOrder() returns (out: seq<int>)
      requires Valid()
      ensures out == Contents() && |out| == nodeCount
      ensures Ascending(Contents()) ==> Ascending(out)
    {
      out := Traversal.TraverseInOrder(nodes, root, L);
      InOrderIsKeys(nodes, root, L);
    }

    /** `traversePostOrder`: every key once, each node after its subtrees. */
    method TraversePostOrder() returns (out: seq<int>)
      requires Valid()
      ensures out == PostOrder(View(nodes, L, root))
      ensures multiset(out) == multiset(Contents()) && |out| == nodeCount
    {
      out := Traversal.TraversePostOrder(nodes, root, L);
      InOrderIsKeys(nodes, root, L);
      SameVisits(View(nodes, L, root));
      VisitCount(View(nodes, L, root));
    }

    /**
     * Descend to the node holding `key`, remembering its parent, then
     * `nodeCount--` and `deleteNode`. A completed removal takes exactly the
     * slot of the found key out of the in-order; a throw leaves the count
     * decremented and at most the found key overwritten.
     */
    method Remove(key: int) returns (r: Removal)
      requires Valid()
      requires forall i | i in nodes && nodes[i].key == key :: !Drops(nodes, i)
      modifies this
      ensures r == Absent ==> nodes == old(nodes) && root == old(root) && nodeCount == old(nodeCount) && L == old(L)
      ensures r == Absent && Ascending(old(Contents())) ==> key !in old(Contents())
      ensures r != Absent ==> Tree() && nodeCount == old(nodeCount) - 1
      ensures r == Removed ==> Valid() && exists t | 0 <= t < |old(Contents())| ::
        old(Contents())[t] == key && Contents() == old(Contents())[..t] + old(Contents())[t + 1..]
      ensures r == Removed && Ascending(old(Contents())) ==> Ascending(Contents())
      ensures r == Threw ==> L == old(L) && exists t | 0 <= t < |old(Contents())| ::
        old(Contents())[t] == key && Overwritten(old(Contents()), Contents(), t)
    {
      if root.None? {
        return Absent;
      }
      ghost var s := Contents();
      var parent: Option<nat> := None;
      var current := root.value;
      while true
        invariant current in nodes && parent == L.at[current].up
        invariant Ascending(s) ==> Outside(s, L.at[current].lo, L.at[current].hi, key)
        modifies {}
        decreases L.at[current].hi - L.at[current].lo
      {
        assert NodeOk(nodes, L, current);
        if Compare(key, nodes[current].key) < 0 {
          if Ascending(s) {
            GoLeft(nodes, L, current, key);
          }
          if nodes[current].left.None? {
            return Absent;
          }
          parent := Some(current);
          current := nodes[current].left.value;
        } else if Compare(key, nodes[current].key) > 0 {
          if Ascending(s) {
            GoRight(nodes, L, current, key);
          }
          if nodes[current].right.None? {
            return Absent;
          }
          parent := Some(current);
          current := nodes[current].right.value;
        } else {
          break;
        }
      }
      KeyAt(nodes, L, current);
      r := RemoveFound(current, parent);
    }

    /** The found branch of `remove`: `nodeCount--` and `deleteNode(current, parent)`. */
    method RemoveFound(current: nat, parent: Option<nat>) returns (r: Removal)
      requires Valid() && current in nodes && parent == L.at[current].up && !Drops(nodes, current)
      modifies this
      ensures r != Absent && Tree() && nodeCount == old(nodeCount) - 1
      ensures var t := old(L.pos[current]);
        && t < |old(Contents())| && old(Contents())[t] == old(nodes[current].key)
        && (r == Removed ==> Valid() && Contents() == old(Contents())[..t] + old(Contents())[t + 1..])
        && (r == Threw ==> L == old(L) && Overwritten(old(Contents()), Contents(), t))
      ensures r == Removed && Ascending(old(Contents())) ==> Ascending(Contents())
    {
      ghost var s := Contents();
      ghost var t := L.pos[current];
      KeyAt(nodes, L, current);
      nodeCount := nodeCount - 1;
      var threw := DeleteNode(current, parent);
      r := if threw then Threw else Removed;
      if !threw && Ascending(s) {
        AscendingDelete(s, t);
      }
    }

    /**
     * `deleteNode(node, parent)`: a leaf is unhooked from its parent; a node
     * with one child takes over the key and links of the left child, or of a
     * right child that is a leaf; with two children and a right child that
     * is a leaf, that child is unhooked and its key written into `node`.
     * Every other shape throws, after the key is overwritten in the
     * right-only case.
     */
    method DeleteNode(node: nat, parent: Option<nat>) returns (threw: bool)
      requires Tree() && node in nodes && parent == L.at[node].up && !Drops(nodes, node)
      modifies this
      ensures Tree() && nodeCount == old(nodeCount) && root == old(root)
      ensures threw == old(Throws(nodes, root, node))
      ensures var t := old(L.pos[node]);
        && t < |old(Contents())|
        && (!threw ==> |L.order| + 1 == |old(L.order)| && Contents() == old(Contents())[..t] + old(Contents())[t + 1..])
        && (threw ==> L == old(L) && Overwritten(old(Contents()), Contents(), t))
    {
      ChildrenIn(nodes, root, L, node);
      assert NodeOk(nodes, L, node);
      var nd := nodes[node];
      if nd.left.None? && nd.right.None? {
        if parent.None? {
          // `parent.removeChild(node)` with `parent` undefined.
          return true;
        }
        var p := parent.value;
        ParentIn(nodes, root, L, node);
        var m' := nodes[p := RemoveChild(nodes[p], node)] - {node};
        L := UnhookStep(nodes, root, L, next, node, p, m');
        nodes := m';
        return false;
      }
      if nd.right.None? {
        TakeOver(node, nd.left.value);
        return false;
      }
      var r := nd.right.value;
      if nd.left.None? {
        if nodes[r].left.Some? || nodes[r].right.Some? {
          // `node.key = node.right.key`, then a read through `node.left`.
          RekeyFromRight(node);
          return true;
        }
        TakeOver(node, r);
        return false;
      }
      if nodes[r].left.Some? {
        // `node.getLeft()` is not a function.
        return true;
      }
      ReplaceByRightLeaf(node);
      return false;
    }

    /** The right-only case up to its throw: `node.key = node.right.key`. */
    method RekeyFromRight(node: nat)
      requires Tree() && node in nodes && nodes[node].right.Some?
      modifies this
      ensures Tree() && nodeCount == old(nodeCount) && root == old(root) && L == old(L)
      ensures old(nodes[node].right.value) in old(nodes)
      ensures var u := old(L.pos[nodes[node].right.value]);
        u < |old(Contents())| && Contents() == old(Contents())[old(L.pos[node]) := old(Contents())[u]]
    {
      ChildrenIn(nodes, root, L, node);
      var r := nodes[node].right.value;
      KeyAt(nodes, L, r);
      var k := nodes[r].key;
      Rekeyed(nodes, root, L, node, k);
      OwnedRekey(nodes, next, node, k);
      nodes := nodes[node := nodes[node].(key := k)];
    }

    /**
     * `node.key = extractMinimum(node.right, node)` when the right child has
     * no left child: `node.removeChild(node.right)`, then the removed key
     * is written into `node`.
     */
    method ReplaceByRightLeaf(node: nat)
      requires Tree() && node in nodes && nodes[node].left.Some? && nodes[node].right.Some?
      requires nodes[node].right.value in nodes
      requires nodes[nodes[node].right.value].left.None? && nodes[nodes[node].right.value].right.None?
      modifies this
      ensures Tree() && nodeCount == old(nodeCount) && root == old(root) && |L.order| + 1 == |old(L.order)|
      ensures var t := old(L.pos[node]);
        t < |old(Contents())| && Contents() == old(Contents())[..t] + old(Contents())[t + 1..]
    {
      var r := nodes[node].right.value;
      var m1 := nodes[node := RemoveChild(nodes[node], r)] - {r};
      var m' := m1[node := m1[node].(key := nodes[r].key)];
      L := RightLeafStep(nodes, root, L, next, node, r, m1, m');
      nodes := m';
    }

    /**
     * The left-only case, and the right-only case with a leaf right child:
     * `node` copies the key and both links of its only child `c`.
     */
    method TakeOver(node: nat, c: nat)
      requires Tree() && node in nodes && c in nodes
      requires (nodes[node].left == Some(c) && nodes[node].right.None?) || (nodes[node].right == Some(c) && nodes[node].left.None?)
      modifies this`nodes, this`L
      ensures Tree() && |L.order| + 1 == |old(L.order)|
      ensures var t := old(L.pos[node]);
        t < |old(Contents())| && Contents() == old(Contents())[..t] + old(Contents())[t + 1..]
    {
      var m';
      ghost var L';
      m', L' := TakenOver(node, c);
      nodes, L := m', L';
    }

    /** The cells and layout after `TakeOver`, with what they promise. */
    method TakenOver(node: nat, c: nat) returns (m': map<nat, Cell<int>>, ghost L': Layout)
      requires Tree() && node in nodes && c in nodes
      requires (nodes[node].left == Some(c) && nodes[node].right.None?) || (nodes[node].right == Some(c) && nodes[node].left.None?)
      ensures Shaped(m', root, L') && Owned(m', next) && |L'.order| + 1 == |L.order|
      ensures L.pos[node] < |Keys(nodes, L)|
      ensures Keys(m', L') == Keys(nodes, L)[..L.pos[node]] + Keys(nodes, L)[L.pos[node] + 1..]
    {
      m' := TookOver(nodes, node, c);
      L' := OneChildStep(nodes, root, L, next, node, c, m');
    }
  }
}
