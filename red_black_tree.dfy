/**
 * The red-black tree of `lib/red-black-tree.js`.
 *
 * The nodes live in an arena of `Cell<Option<int>>` with a colour map
 * beside it; a nil sentinel is a node with key `None`. Every `getLeft` and
 * `getRight` the source calls on a node without that child creates a nil
 * sentinel there, and the model makes the same calls on the same nodes
 * (up to the splice of `remove`, below);
 * a rotation makes all of its calls before its first write (`PrepareLeft`),
 * so within one rotation a sentinel can be created a little earlier.
 * Three steps differ. A rotation sets the parent of the child it moves even
 * when that child is a nil sentinel (the source only re-parents a real
 * child), and `remove` reads the left child of `y.parent` just before it
 * sets `x.parent` rather than just after; neither shows through the public
 * operations, which reset a sentinel's parent before using it. And the
 * splice of `remove` keeps the identity `y` and gives it the cell and the
 * colour of `x`, where the source keeps the object `x` in the place of `y`:
 * the shape, keys and colours are the same, the node identities are not.
 * The keys the tree holds are the keys of its real nodes in in-order,
 * `Contents()`.
 */
module RedBlackTree {
  import opened Common
  import opened Arena
  import opened TreeEdit
  import opened TreeSearch
  import opened TreeCut
  import opened TreeRotation
  import opened RedBlackTreeNode

  // ---------------------------------------------------------------------
  // The keys of the real nodes.

  /** The key of one in-order slot, if it holds a real node. */
  ghost function Real1(x: Option<int>): seq<int>
  {
    if x.Some? then [x.value] else []
  }

  /** The keys of an in-order with the nil sentinels left out. */
  ghost function Real(s: seq<Option<int>>): seq<int>
  {
    if s == [] then [] else Real1(s[0]) + Real(s[1..])
  }

  lemma {:induction false} RealAppend(a: seq<Option<int>>, b: seq<Option<int>>)
    ensures Real(a + b) == Real(a) + Real(b)
  {
    if a == [] {
      assert a + b == b;
    } else {
      assert (a + b)[1..] == a[1..] + b;
      RealAppend(a[1..], b);
    }
  }

  /** Splitting an in-order around index `t`. */
  lemma {:induction false} RealAt(s: seq<Option<int>>, t: nat)
    requires t < |s|
    ensures Real(s) == Real(s[..t]) + Real1(s[t]) + Real(s[t + 1..])
  {
    assert s == s[..t] + ([s[t]] + s[t + 1..]);
    RealAppend(s[..t], [s[t]] + s[t + 1..]);
    RealAppend([s[t]], s[t + 1..]);
    assert Real([s[t]]) == Real1(s[t]) + Real([]) by {
      assert [s[t]][1..] == [];
    }
  }

  /** A nil sentinel entering the in-order adds no key. */
  lemma {:induction false} RealNilInserted(s: seq<Option<int>>, t: nat)
    requires t <= |s|
    ensures Real(s[..t] + [None] + s[t..]) == Real(s)
  {
    var s' := s[..t] + [None] + s[t..];
    RealAt(s', t);
    assert s'[..t] == s[..t] && s'[t + 1..] == s[t..];
    RealAppend(s[..t], s[t..]);
    assert s[..t] + s[t..] == s;
  }

  /** Giving a sentinel the key `k` enters `k` into the keys. */
  lemma {:induction false} RealFilled(s: seq<Option<int>>, t: nat, k: int)
    requires t < |s| && s[t].None?
    ensures Inserted(Real(s), k, Real(s[t := Some(k)]))
  {
    var s' := s[t := Some(k)];
    RealAt(s, t);
    RealAt(s', t);
    assert s'[..t] == s[..t] && s'[t + 1..] == s[t + 1..];
    var q := |Real(s[..t])|;
    assert Real(s)[..q] == Real(s[..t]) && Real(s)[q..] == Real(s[t + 1..]);
  }

  /** The keys an in-order slot contributes, as a multiset. */
  ghost function Bag(x: Option<int>): multiset<int>
  {
    multiset(Real1(x))
  }

  /** Taking one slot out of the in-order removes its key, if it had one. */
  lemma {:induction false} RealDeleted(s: seq<Option<int>>, t: nat)
    requires t < |s|
    ensures multiset(Real(s[..t] + s[t + 1..])) + Bag(s[t]) == multiset(Real(s))
  {
    RealAt(s, t);
    RealAppend(s[..t], s[t + 1..]);
  }

  /** Overwriting one slot of the in-order swaps its key for the new one. */
  lemma {:induction false} RealReplaced(s: seq<Option<int>>, t: nat, x: Option<int>)
    requires t < |s|
    ensures multiset(Real(s[t := x])) + Bag(s[t]) == multiset(Real(s)) + Bag(x)
  {
    var s' := s[t := x];
    RealAt(s, t);
    RealAt(s', t);
    assert s'[..t] == s[..t] && s'[t + 1..] == s[t + 1..];
  }

  /** Cutting the block `[a, b)` out of the in-order loses exactly its keys. */
  lemma {:induction false} RealCut(s: seq<Option<int>>, a: nat, b: nat)
    requires a <= b <= |s|
    ensures multiset(Real(s[..a] + s[b..])) + multiset(Real(s[a..b])) == multiset(Real(s))
  {
    assert s == s[..a] + s[a..b] + s[b..];
    RealAppend(s[..a] + s[a..b], s[b..]);
    RealAppend(s[..a], s[a..b]);
    RealAppend(s[..a], s[b..]);
  }

  /** A real slot's key is one of the keys. */
  lemma {:induction false} RealMember(s: seq<Option<int>>, j: nat)
    requires j < |s| && s[j].Some?
    ensures s[j].value in Real(s)
  {
    RealAt(s, j);
  }

  /** The first real slot gives the first key. */
  lemma {:induction false} RealFirst(s: seq<Option<int>>, j: nat)
    requires j < |s| && s[j].Some? && forall i | 0 <= i < j :: s[i].None?
    ensures Real(s) != [] && Real(s)[0] == s[j].value
  {
    RealAt(s, j);
    RealNone(s[..j]);
  }

  /** The last real slot gives the last key. */
  lemma {:induction false} RealLast(s: seq<Option<int>>, j: nat)
    requires j < |s| && s[j].Some? && forall i | j < i < |s| :: s[i].None?
    ensures Real(s) != [] && Real(s)[|Real(s)| - 1] == s[j].value
  {
    RealAt(s, j);
    RealNone(s[j + 1..]);
  }

  /** Within the window `[lo, hi)`, a real slot `j` with only sentinels after it gives the last key. */
  lemma RealLastIn(s: seq<Option<int>>, lo: nat, j: nat, hi: nat)
    requires lo <= j < hi <= |s| && s[j].Some?
    requires j + 1 == hi || (j + 2 == hi && s[j + 1].None?)
    ensures var r := Real(s[lo..hi]); r != [] && r[|r| - 1] == s[j].value
  {
    var w := s[lo..hi];
    assert w[j - lo] == s[j];
    assert forall k | j - lo < k < |w| :: w[k] == s[j + 1];
    RealLast(w, j - lo);
  }

  /** Within the window `[lo, hi)`, a real slot `j` with only sentinels before it gives the first key. */
  lemma RealFirstIn(s: seq<Option<int>>, lo: nat, j: nat, hi: nat)
    requires lo <= j < hi <= |s| && s[j].Some?
    requires j == lo || (j == lo + 1 && s[lo].None?)
    ensures var r := Real(s[lo..hi]); r != [] && r[0] == s[j].value
  {
    var w := s[lo..hi];
    assert w[j - lo] == s[j];
    assert forall k | 0 <= k < j - lo :: w[k] == s[lo];
    RealFirst(w, j - lo);
  }

  /** An in-order of sentinels only has no keys. */
  lemma {:induction false} RealNone(s: seq<Option<int>>)
    requires forall i | 0 <= i < |s| :: s[i].None?
    ensures Real(s) == []
  {
    if s != [] {
      RealNone(s[1..]);
    }
  }

  /** The real keys rise from left to right, sentinels aside. */
  ghost predicate RealsAscend(s: seq<Option<int>>)
  {
    forall a, b | 0 <= a < b < |s| && s[a].Some? && s[b].Some? :: s[a].value < s[b].value
  }

  /** An ascending key sequence comes from slots whose real keys ascend. */
  lemma {:induction false} AscendingReals(s: seq<Option<int>>)
    requires Ascending(Real(s))
    ensures RealsAscend(s)
  {
    forall a, b | 0 <= a < b < |s| && s[a].Some? && s[b].Some?
      ensures s[a].value < s[b].value
    {
      var i, j := RealPair(s, a, b);
    }
  }

  /** The keys of two slots, the first before the second, keep that order in `Real(s)`. */
  lemma RealPair(s: seq<Option<int>>, a: nat, b: nat) returns (i: nat, j: nat)
    requires a < b < |s| && s[a].Some? && s[b].Some?
    ensures i < j < |Real(s)| && Real(s)[i] == s[a].value && Real(s)[j] == s[b].value
  {
    RealAt(s, a);
    var u := s[a + 1..];
    RealAt(u, b - a - 1);
    assert u[b - a - 1] == s[b];
    i := |Real(s[..a])|;
    j := i + 1 + |Real(u[..b - a - 1])|;
    assert Real(s)[i] == s[a].value;
    assert Real(s)[j] == s[b].value;
  }

  /** A key of `Real(s)` sits in some slot of `s`. */
  lemma {:induction false} RealSlot(s: seq<Option<int>>, key: int) returns (j: nat)
    requires key in Real(s)
    ensures j < |s| && s[j] == Some(key)
  {
    assert s != [];
    if s[0] == Some(key) {
      j := 0;
    } else {
      assert key in Real(s[1..]);
      var j' := RealSlot(s[1..], key);
      j := j' + 1;
    }
  }

  /**
   * Every real key before slot `lo` is below `key` and every real key from
   * slot `hi` on is above it: `key` can only sit in a slot of `[lo, hi)`.
   */
  ghost predicate Beside(s: seq<Option<int>>, lo: int, hi: int, key: int)
  {
    && (forall j | 0 <= j < |s| && j < lo && s[j].Some? :: s[j].value < key)
    && (forall j | 0 <= j < |s| && hi <= j && s[j].Some? :: key < s[j].value)
  }

  /** A window holding only sentinels leaves no place for `key`. */
  lemma BesideEmpty(s: seq<Option<int>>, lo: int, hi: int, key: int)
    requires Beside(s, lo, hi, key) && forall j | 0 <= j < |s| && lo <= j < hi :: s[j].None?
    ensures key !in Real(s)
  {
    if key in Real(s) {
      var j := RealSlot(s, key);
      assert false;
    }
  }

  // ---------------------------------------------------------------------
  // Depth.

  /** The number of parent links from `i` up to the root. */
  ghost function Depth<K>(m: map<nat, Cell<K>>, root: Option<nat>, L: Layout, i: nat): nat
    requires Shaped(m, root, L) && Linked(m, L) && i in m
    decreases |L.order| - (L.at[i].hi - L.at[i].lo)
  {
    assert NodeOk(m, L, i);
    if m[i].parent.None? then 0
    else
      var p := m[i].parent.value;
      assert NodeOk(m, L, p);
      ChildSmaller(m, L, p, i);
      1 + Depth(m, root, L, p)
  }

  /** Every old node keeps its parent. */
  ghost predicate ParentsKept<K>(m: map<nat, Cell<K>>, m': map<nat, Cell<K>>)
  {
    forall i | i in m :: i in m' && m'[i].parent == m[i].parent
  }

  /** A node whose ancestors all kept their parents keeps its depth. */
  lemma {:induction false} DepthKept<K>(m: map<nat, Cell<K>>, root: Option<nat>, L: Layout,
                                        m': map<nat, Cell<K>>, root': Option<nat>, L': Layout, i: nat)
    requires Shaped(m, root, L) && Linked(m, L) && Shaped(m', root', L') && Linked(m', L')
    requires ParentsKept(m, m') && i in m
    ensures Depth(m', root', L', i) == Depth(m, root, L, i)
    decreases |L.order| - (L.at[i].hi - L.at[i].lo)
  {
    assert NodeOk(m, L, i);
    if m[i].parent.Some? {
      var p := m[i].parent.value;
      assert NodeOk(m, L, p);
      ChildSmaller(m, L, p, i);
      DepthKept(m, root, L, m', root', L', p);
    }
  }

  /** With the sentinels in place, a node with a child is real or the root. */
  lemma ParentHolds(m: map<nat, Cell<Option<int>>>, root: Option<nat>, p: nat, c: nat)
    requires Sentinels(m, root) && p in m && (m[p].left == Some(c) || m[p].right == Some(c))
    ensures !IsNil(m[p]) || root == Some(p)
  {
  }

  /** Growing keeps the order of two depths. */
  lemma DepthOrderKept(m: map<nat, Cell<Option<int>>>, col: map<nat, Color>, root: Option<nat>, L: Layout,
                       m': map<nat, Cell<Option<int>>>, col': map<nat, Color>, root': Option<nat>, L': Layout,
                       node: nat, y: nat)
    requires Shaped(m, root, L) && Linked(m, L) && Shaped(m', root', L') && Linked(m', L')
    requires Grown(m, col, m', col') && node in m && y in m
    requires node == y || Depth(m, root, L, node) < Depth(m, root, L, y)
    ensures node == y || Depth(m', root', L', node) < Depth(m', root', L', y)
  {
    GrownParents(m, col, m', col');
    DepthKept(m, root, L, m', root', L', node);
    DepthKept(m, root, L, m', root', L', y);
  }

  /**
   * The recorded parent of a node has it as a child, spans more, and has
   * two different children when it has two.
   */
  lemma ChildOf<K>(m: map<nat, Cell<K>>, root: Option<nat>, L: Layout, c: nat, p: nat)
    requires Shaped(m, root, L) && Linked(m, L) && c in m && m[c].parent == Some(p)
    ensures p in m && (m[p].left == Some(c) || m[p].right == Some(c)) && c != p
    ensures L.at[c].hi - L.at[c].lo < L.at[p].hi - L.at[p].lo
    ensures m[p].left.Some? && m[p].right.Some? ==> m[p].left != m[p].right
  {
    assert NodeOk(m, L, c);
    assert NodeOk(m, L, p);
    ChildSmaller(m, L, p, c);
  }

  /** A tree with a node has a root, and the root is a node. */
  lemma RootExists<K>(m: map<nat, Cell<K>>, root: Option<nat>, L: Layout, i: nat)
    requires Shaped(m, root, L) && i in m
    ensures root.Some? && root.value in m
  {
    assert L.pos[i] < |L.order|;
  }

  /** Nodes added to an arena take no parent from the old nodes. */
  lemma GrownParents(m: map<nat, Cell<Option<int>>>, col: map<nat, Color>,
                     m': map<nat, Cell<Option<int>>>, col': map<nat, Color>)
    requires Grown(m, col, m', col')
    ensures ParentsKept(m, m')
  {
  }

  /** A child is one level deeper than its parent. */
  lemma ChildDepth<K>(m: map<nat, Cell<K>>, root: Option<nat>, L: Layout, p: nat, c: nat)
    requires Shaped(m, root, L) && Linked(m, L) && p in m
    requires m[p].left == Some(c) || m[p].right == Some(c)
    ensures c in m && m[c].parent == Some(p)
    ensures Depth(m, root, L, c) == Depth(m, root, L, p) + 1
  {
    assert NodeOk(m, L, p) && NodeOk(m, L, c);
  }

  /** Every node of the subtree of `d` other than `d` is deeper than `d`. */
  lemma {:induction false} BelowDeeper<K>(m: map<nat, Cell<K>>, root: Option<nat>, L: Layout, d: nat, j: nat)
    requires Shaped(m, root, L) && Linked(m, L) && d in m && j in Below(m, L, d)
    ensures Depth(m, root, L, j) >= Depth(m, root, L, d)
    ensures j != d ==> Depth(m, root, L, j) > Depth(m, root, L, d)
    decreases |L.order| - (L.at[j].hi - L.at[j].lo)
  {
    if j != d {
      Nested(m, root, L, d, j);
      var q := L.at[j].up.value;
      assert NodeOk(m, L, j) && NodeOk(m, L, q);
      ChildSmaller(m, L, q, j);
      BelowDeeper(m, root, L, d, q);
    }
  }

  // ---------------------------------------------------------------------
  // Sentinels on demand.

  /**
   * `getLeft`/`getRight` creating the sentinel `next` below `q`: one linked
   * tree with the same real keys.
   */
  lemma NilStep(m: map<nat, Cell<Option<int>>>, root: Option<nat>, L: Layout, next: nat, q: nat, left: bool,
                m': map<nat, Cell<Option<int>>>) returns (L': Layout)
    requires Shaped(m, root, L) && Linked(m, L) && Fresh(m, next) && q in m
    requires if left then m[q].left.None? else m[q].right.None?
    requires m' == m[q := if left then m[q].(left := Some(next)) else m[q].(right := Some(next))][next := Nil(q)]
    ensures Shaped(m', root, L') && Linked(m', L') && Fresh(m', next + 1)
    ensures Real(Keys(m', L')) == Real(Keys(m, L))
  {
    assert next !in m;
    FreshGrown(m, next, m');
    L' := AttachStep(m, root, L, q, next, left, Nil(q));
    var t := if left then L.pos[q] else L.pos[q] + 1;
    assert Keys(m', L') == Keys(m, L)[..t] + [None] + Keys(m, L)[t..];
    RealNilInserted(Keys(m, L), t);
  }

  /** Creating the sentinel `c` below `n` only adds a node. */
  lemma NilGrown(m: map<nat, Cell<Option<int>>>, col: map<nat, Color>, n: nat, c: nat, left: bool)
    requires n in m && c !in m && (if left then m[n].left.None? else m[n].right.None?)
    ensures Grown(m, col, m[n := if left then m[n].(left := Some(c)) else m[n].(right := Some(c))][c := Nil(n)],
                  col[c := NewColor(None)])
  {
  }


  /** Every nil sentinel of `m` other than the root is a leaf. */
  ghost predicate Sentinels(m: map<nat, Cell<Option<int>>>, root: Option<nat>)
  {
    forall i | i in m && Some(i) != root && IsNil(m[i]) :: m[i].left.None? && m[i].right.None?
  }

  /** A sentinel hung below a real node, or below the root, keeps every other sentinel a leaf. */
  lemma NilSentinels(m: map<nat, Cell<Option<int>>>, root: Option<nat>, n: nat, c: nat, left: bool)
    requires n in m && c !in m && Sentinels(m, root) && (!IsNil(m[n]) || root == Some(n))
    ensures Sentinels(m[n := if left then m[n].(left := Some(c)) else m[n].(right := Some(c))][c := Nil(n)], root)
  {
  }

  /** A nil child of a node, with every non-root nil a leaf, spans one sentinel slot. */
  lemma NilChildSlot(m: map<nat, Cell<Option<int>>>, root: Option<nat>, L: Layout, i: nat, c: nat)
    requires Shaped(m, root, L) && Sentinels(m, root) && i in m
    requires (m[i].left == Some(c) || m[i].right == Some(c)) && c in m && IsNil(m[c])
    ensures L.at[c].lo == L.pos[c] && L.at[c].hi == L.pos[c] + 1 && Keys(m, L)[L.pos[c]] == None
  {
    assert NodeOk(m, L, i) && NodeOk(m, L, c);
    KeyAt(m, L, c);
  }

  /**
   * Going left from the real node `i` because `key` is below its key narrows
   * the window to the left subtree; a missing or nil left child means `key`
   * is absent.
   */
  lemma DescendLeft(m: map<nat, Cell<Option<int>>>, root: Option<nat>, L: Layout, i: nat, key: int)
    requires Shaped(m, root, L) && Sentinels(m, root) && i in m && m[i].key.Some? && key < m[i].key.value
    requires RealsAscend(Keys(m, L)) && Beside(Keys(m, L), L.at[i].lo, L.at[i].hi, key)
    ensures Beside(Keys(m, L), L.at[i].lo, L.pos[i], key)
    ensures m[i].left.Some? ==> m[i].left.value in m
    ensures m[i].left.None? || IsNil(m[m[i].left.value]) ==> key !in Real(Keys(m, L))
  {
    var s := Keys(m, L);
    assert NodeOk(m, L, i);
    KeyAt(m, L, i);
    forall j | 0 <= j < |s| && L.pos[i] <= j && s[j].Some? ensures key < s[j].value {
      if j > L.pos[i] {
        assert s[L.pos[i]].value < s[j].value;
      }
    }
    if m[i].left.None? {
      BesideEmpty(s, L.pos[i], L.pos[i], key);
    } else if IsNil(m[m[i].left.value]) {
      NilChildSlot(m, root, L, i, m[i].left.value);
      BesideEmpty(s, L.at[i].lo, L.pos[i], key);
    }
  }

  /** The mirror of `DescendLeft`. */
  lemma DescendRight(m: map<nat, Cell<Option<int>>>, root: Option<nat>, L: Layout, i: nat, key: int)
    requires Shaped(m, root, L) && Sentinels(m, root) && i in m && m[i].key.Some? && key > m[i].key.value
    requires RealsAscend(Keys(m, L)) && Beside(Keys(m, L), L.at[i].lo, L.at[i].hi, key)
    ensures Beside(Keys(m, L), L.pos[i] + 1, L.at[i].hi, key)
    ensures m[i].right.Some? ==> m[i].right.value in m
    ensures m[i].right.None? || IsNil(m[m[i].right.value]) ==> key !in Real(Keys(m, L))
  {
    var s := Keys(m, L);
    assert NodeOk(m, L, i);
    KeyAt(m, L, i);
    forall j | 0 <= j < |s| && j <= L.pos[i] && s[j].Some? ensures s[j].value < key {
      if j < L.pos[i] {
        assert s[j].value < s[L.pos[i]].value;
      }
    }
    if m[i].right.None? {
      BesideEmpty(s, L.pos[i] + 1, L.pos[i] + 1, key);
    } else if IsNil(m[m[i].right.value]) {
      NilChildSlot(m, root, L, i, m[i].right.value);
      BesideEmpty(s, L.pos[i] + 1, L.at[i].hi, key);
    }
  }

  /** The keys of the real nodes below `i`, `i` included, in in-order. */
  ghost function SubtreeReals(m: map<nat, Cell<Option<int>>>, root: Option<nat>, L: Layout, i: nat): seq<int>
    requires Shaped(m, root, L) && i in m
  {
    assert NodeOk(m, L, i);
    Real(Keys(m, L)[L.at[i].lo..L.at[i].hi])
  }

  /** The keys of the real nodes in the right subtree of `i`, in in-order. */
  ghost function RightReals(m: map<nat, Cell<Option<int>>>, root: Option<nat>, L: Layout, i: nat): seq<int>
    requires Shaped(m, root, L) && i in m
  {
    assert NodeOk(m, L, i);
    Real(Keys(m, L)[L.pos[i] + 1..L.at[i].hi])
  }

  /** The subtree of the root holds every key. */
  lemma WholeReals(m: map<nat, Cell<Option<int>>>, root: Option<nat>, L: Layout)
    requires Shaped(m, root, L) && root.Some?
    ensures root.value in m && SubtreeReals(m, root, L, root.value) == Real(Keys(m, L))
  {
    assert NodeOk(m, L, root.value);
    assert Keys(m, L)[0..|L.order|] == Keys(m, L);
  }

  /**
   * A real node on the right spine holds a key of the tree; its right child,
   * when real, is further down the spine; when it is missing or a sentinel,
   * the node holds the last key.
   */
  lemma SpineRightStep(m: map<nat, Cell<Option<int>>>, root: Option<nat>, L: Layout, n: nat, cond: bool)
    requires Shaped(m, root, L) && root.Some? && n in m && m[n].key.Some? && L.at[n].hi == |L.order|
    requires cond ==> Sentinels(m, root)
    ensures m[n].key.value in Real(Keys(m, L))
    ensures m[n].right.Some? && m[n].right.value in m && !IsNil(m[m[n].right.value]) ==>
              var c := m[n].right.value; L.at[c].hi == |L.order| && 0 < L.at[c].hi - L.at[c].lo < L.at[n].hi - L.at[n].lo
    ensures cond && (m[n].right.None? || (m[n].right.value in m && IsNil(m[m[n].right.value]))) ==>
              Real(Keys(m, L)) != [] && m[n].key.value == Real(Keys(m, L))[|Real(Keys(m, L))| - 1]
  {
    assert NodeOk(m, L, n);
    KeyAt(m, L, n);
    RealMember(Keys(m, L), L.pos[n]);
    var right := m[n].right;
    if right.None? || IsNil(m[right.value]) {
      if cond {
        RightmostIn(m, root, L, root.value, n);
        WholeReals(m, root, L);
      }
    } else {
      assert NodeOk(m, L, right.value);
    }
  }

  /** The mirror of `SpineRightStep` on the left spine: the first key. */
  lemma SpineLeftStep(m: map<nat, Cell<Option<int>>>, root: Option<nat>, L: Layout, n: nat, cond: bool)
    requires Shaped(m, root, L) && root.Some? && n in m && m[n].key.Some? && L.at[n].lo == 0
    requires cond ==> Sentinels(m, root)
    ensures m[n].key.value in Real(Keys(m, L))
    ensures m[n].left.Some? && m[n].left.value in m && !IsNil(m[m[n].left.value]) ==>
              var c := m[n].left.value; L.at[c].lo == 0 && 0 < L.at[c].hi - L.at[c].lo < L.at[n].hi - L.at[n].lo
    ensures cond && (m[n].left.None? || (m[n].left.value in m && IsNil(m[m[n].left.value]))) ==>
              Real(Keys(m, L)) != [] && m[n].key.value == Real(Keys(m, L))[0]
  {
    assert NodeOk(m, L, n);
    KeyAt(m, L, n);
    RealMember(Keys(m, L), L.pos[n]);
    var left := m[n].left;
    if left.None? || IsNil(m[left.value]) {
      if cond {
        assert NodeOk(m, L, root.value);
        LeftmostIn(m, root, L, root.value, n);
        WholeReals(m, root, L);
      }
    } else {
      assert NodeOk(m, L, left.value);
    }
  }

  /**
   * A real node `i` whose span ends where that of `n` does and whose right
   * child is missing or a sentinel leaf holds the last key below `n`.
   */
  lemma RightmostIn(m: map<nat, Cell<Option<int>>>, root: Option<nat>, L: Layout, n: nat, i: nat)
    requires Shaped(m, root, L) && Sentinels(m, root) && n in m && i in m && m[i].key.Some?
    requires m[i].right.None? || (m[i].right.value in m && IsNil(m[m[i].right.value]))
    requires L.at[n].lo <= L.at[i].lo && L.at[i].hi == L.at[n].hi
    ensures var r := SubtreeReals(m, root, L, n); r != [] && r[|r| - 1] == m[i].key.value
  {
    assert NodeOk(m, L, i) && NodeOk(m, L, n);
    KeyAt(m, L, i);
    if m[i].right.Some? {
      NilChildSlot(m, root, L, i, m[i].right.value);
    }
    RealLastIn(Keys(m, L), L.at[n].lo, L.pos[i], L.at[n].hi);
  }

  /** The mirror of `RightmostIn`: the first key below `n`. */
  lemma LeftmostIn(m: map<nat, Cell<Option<int>>>, root: Option<nat>, L: Layout, n: nat, i: nat)
    requires Shaped(m, root, L) && Sentinels(m, root) && n in m && i in m && m[i].key.Some?
    requires m[i].left.None? || (m[i].left.value in m && IsNil(m[m[i].left.value]))
    requires L.at[i].lo == L.at[n].lo && L.at[i].hi <= L.at[n].hi
    ensures var r := SubtreeReals(m, root, L, n); r != [] && r[0] == m[i].key.value
  {
    assert NodeOk(m, L, i) && NodeOk(m, L, n);
    KeyAt(m, L, i);
    if m[i].left.Some? {
      NilChildSlot(m, root, L, i, m[i].left.value);
    }
    RealFirstIn(Keys(m, L), L.at[n].lo, L.pos[i], L.at[n].hi);
  }

  /**
   * From `m, col` to `m', col'` nodes were only added: every old node keeps
   * its key, its parent, its colour and the children it had.
   */
  ghost predicate Grown(m: map<nat, Cell<Option<int>>>, col: map<nat, Color>,
                        m': map<nat, Cell<Option<int>>>, col': map<nat, Color>)
  {
    forall i | i in m :: && i in m' && m'[i].key == m[i].key && m'[i].parent == m[i].parent
      && (m[i].left.Some? ==> m'[i].left == m[i].left) && (m[i].right.Some? ==> m'[i].right == m[i].right)
      && Hue(col', i) == Hue(col, i)
  }

  /** Growing twice is growing. */
  lemma GrownTrans(m0: map<nat, Cell<Option<int>>>, col0: map<nat, Color>,
                   m1: map<nat, Cell<Option<int>>>, col1: map<nat, Color>,
                   m2: map<nat, Cell<Option<int>>>, col2: map<nat, Color>)
    requires Grown(m0, col0, m1, col1) && Grown(m1, col1, m2, col2)
    ensures Grown(m0, col0, m2, col2)
  {
  }

  /** Every old node keeps its key and its colour. */
  ghost predicate Kept(m: map<nat, Cell<Option<int>>>, col: map<nat, Color>,
                       m': map<nat, Cell<Option<int>>>, col': map<nat, Color>)
  {
    forall i | i in m :: i in m' && m'[i].key == m[i].key && Hue(col', i) == Hue(col, i)
  }

  /**
   * The parent `p` of a rotated node `x` points at `y` instead, in the slot
   * that held `x`; its other child is the one it had, or a sentinel where it
   * had none.
   */
  ghost predicate Reseated(m: map<nat, Cell<Option<int>>>, m': map<nat, Cell<Option<int>>>, p: nat, x: nat, y: nat)
  {
    && p in m && p in m'
    && (m[p].left == Some(x) ==> m'[p].left == Some(y) && (m[p].right.Some? ==> m'[p].right == m[p].right))
    && (m[p].left != Some(x) ==> m'[p].right == Some(y) && m'[p].left.Some? && (m[p].left.Some? ==> m'[p].left == m[p].left))
  }

  /**
   * `m', col', root'` is `m, col, root` after `rotateLeft(x)` with `y` the
   * right child that rose: keys and colours stay, `y` has `x` as left child
   * and the old parent of `x` as parent, that parent points at `y` where it
   * pointed at `x` (or `y` is the root), and no node other than `x`, `y` and
   * the old left child of `y` changed parent.
   */
  ghost predicate LeftRotated(m: map<nat, Cell<Option<int>>>, col: map<nat, Color>, root: Option<nat>,
                              m': map<nat, Cell<Option<int>>>, col': map<nat, Color>, root': Option<nat>, x: nat, y: nat)
  {
    && Kept(m, col, m', col') && x in m && x in m' && y in m'
    && (m[x].right.Some? ==> y == m[x].right.value)
    && m'[y].left == Some(x) && m'[x].parent == Some(y) && m'[y].parent == m[x].parent
    && (m[x].left.Some? ==> m'[x].left == m[x].left)
    && (m[x].parent.None? ==> root' == Some(y))
    && (m[x].parent.Some? ==> root' == root && Reseated(m, m', m[x].parent.value, x, y))
    && (forall i | i in m && i != x && i != y && !(y in m && m[y].left == Some(i)) :: m'[i].parent == m[i].parent)
  }

  lemma LeftRotatedFrom(m0: map<nat, Cell<Option<int>>>, col0: map<nat, Color>, root0: Option<nat>,
                        m1: map<nat, Cell<Option<int>>>, col1: map<nat, Color>, x: nat, y: nat,
                        m2: map<nat, Cell<Option<int>>>, root2: Option<nat>)
    requires Grown(m0, col0, m1, col1) && x in m0
    requires m0[x].parent.Some? ==> var p := m0[x].parent.value;
      p in m0 && (m0[p].left == Some(x) || m0[p].right == Some(x))
    requires x in m1 && m1[x].right == Some(y) && y in m1 && m1[y].left.Some?
    requires m0[x].right.Some? ==> y == m0[x].right.value
    requires m1[y].left.value in m0 ==> y in m0 && m0[y].left == m1[y].left
    requires m1[x].parent.Some? ==> m1[x].parent.value in m1 && m1[m1[x].parent.value].left.Some?
    requires RotatedLeftCells(m1, x, m2) && LeftSpots(m1, x)
    requires root2 == if m1[x].parent.None? then Some(y) else root0
    ensures LeftRotated(m0, col0, root0, m2, col1, root2, x, y)
  {
  }

  /** The mirror of `LeftRotated`, for `rotateRight(x)` with `y` the left child that rose. */
  ghost predicate RightRotated(m: map<nat, Cell<Option<int>>>, col: map<nat, Color>, root: Option<nat>,
                               m': map<nat, Cell<Option<int>>>, col': map<nat, Color>, root': Option<nat>, x: nat, y: nat)
  {
    && Kept(m, col, m', col') && x in m && x in m' && y in m'
    && (m[x].left.Some? ==> y == m[x].left.value)
    && m'[y].right == Some(x) && m'[x].parent == Some(y) && m'[y].parent == m[x].parent
    && (m[x].right.Some? ==> m'[x].right == m[x].right)
    && (m[x].parent.None? ==> root' == Some(y))
    && (m[x].parent.Some? ==> root' == root && Reseated(m, m', m[x].parent.value, x, y))
    && (forall i | i in m && i != x && i != y && !(y in m && m[y].right == Some(i)) :: m'[i].parent == m[i].parent)
  }

  lemma RightRotatedFrom(m0: map<nat, Cell<Option<int>>>, col0: map<nat, Color>, root0: Option<nat>,
                         m1: map<nat, Cell<Option<int>>>, col1: map<nat, Color>, x: nat, y: nat,
                         m2: map<nat, Cell<Option<int>>>, root2: Option<nat>)
    requires Grown(m0, col0, m1, col1) && x in m0
    requires m0[x].parent.Some? ==> var p := m0[x].parent.value;
      p in m0 && (m0[p].left == Some(x) || m0[p].right == Some(x))
    requires x in m1 && m1[x].left == Some(y) && y in m1 && m1[y].right.Some?
    requires m0[x].left.Some? ==> y == m0[x].left.value
    requires m1[y].right.value in m0 ==> y in m0 && m0[y].right == m1[y].right
    requires m1[x].parent.Some? ==> m1[x].parent.value in m1 && m1[m1[x].parent.value].left.Some?
    requires RotatedRightCells(m1, x, m2) && RightSpots(m1, x)
    requires root2 == if m1[x].parent.None? then Some(y) else root0
    ensures RightRotated(m0, col0, root0, m2, col1, root2, x, y)
  {
  }

  // ---------------------------------------------------------------------
  // Splicing a node out.

  /** Neither the other child `x` of `y` nor a node above `y` lies below its child `d`. */
  lemma CutSpares(m: map<nat, Cell<Option<int>>>, root: Option<nat>, L: Layout,
                  node: nat, y: nat, d: nat, x: nat)
    requires Shaped(m, root, L) && Linked(m, L) && y in m && node in m
    requires (m[y].left == Some(d) && m[y].right == Some(x)) || (m[y].left == Some(x) && m[y].right == Some(d))
    requires node == y || Depth(m, root, L, node) < Depth(m, root, L, y)
    ensures d in m && x in m && L.at[d].up == Some(y)
    ensures x !in Below(m, L, d) && node !in Below(m, L, d) && node != x
  {
    ChildDepth(m, root, L, y, d);
    ChildDepth(m, root, L, y, x);
    ChildOf(m, root, L, d, y);
    assert NodeOk(m, L, d);
    if x in Below(m, L, d) {
      BelowDeeper(m, root, L, d, x);
    }
    if node in Below(m, L, d) {
      BelowDeeper(m, root, L, d, node);
    }
  }

  /**
   * From `m, L` to `m', L'` the span of `d` left the in-order as one block
   * and every other index moved past it.
   */
  ghost predicate CutAt(m: map<nat, Cell<Option<int>>>, L: Layout, d: nat, m': map<nat, Cell<Option<int>>>, L': Layout)
    requires Indexed(m, L) && Listed(m', L') && d in m
  {
    var a, b := L.at[d].lo, L.at[d].hi;
    && a <= b <= |L.order|
    && Keys(m', L') == Keys(m, L)[..a] + Keys(m, L)[b..]
    && forall i | i in L.pos :: i in L'.pos && L'.pos[i] == Skip(L.pos[i], a, b)
  }

  /** A sentinel leaf below `y` holds no real key in its span. */
  lemma SentinelSpan(m: map<nat, Cell<Option<int>>>, root: Option<nat>, L: Layout, y: nat, d: nat)
    requires Shaped(m, root, L) && Sentinels(m, root) && y in m
    requires (m[y].left == Some(d) || m[y].right == Some(d)) && d in m && IsNil(m[d])
    ensures L.at[d].lo <= L.at[d].hi <= |L.order| && Real(Keys(m, L)[L.at[d].lo..L.at[d].hi]) == []
  {
    NilChildSlot(m, root, L, y, d);
    assert Keys(m, L)[L.at[d].lo..L.at[d].hi] == [None];
  }

  /**
   * Cutting the child `d` of `y` out of the arena, `x` being the other
   * child: one linked tree in which `x` is the only child of `y`. The real
   * keys lost are those below `d`, none when `d` is a sentinel leaf; `x`
   * and a node above `y` stay as they were.
   */
  lemma SpliceCut(m: map<nat, Cell<Option<int>>>, root: Option<nat>, L: Layout, next: nat,
                  node: nat, y: nat, d: nat, x: nat, m': map<nat, Cell<Option<int>>>)
    returns (L': Layout, lost: multiset<int>)
    requires Arranged(m, root, L, next) && y in m && d in m && node in m
    requires (m[y].left == Some(d) && m[y].right == Some(x)) || (m[y].left == Some(x) && m[y].right == Some(d))
    requires node == y || Depth(m, root, L, node) < Depth(m, root, L, y)
    requires m' == Pruned(m, L, d, y)
    ensures Arranged(m', root, L', next) && m'.Keys <= m.Keys
    ensures multiset(Real(Keys(m', L'))) + lost == multiset(Real(Keys(m, L)))
    ensures Sentinels(m, root) && IsNil(m[d]) ==> lost == multiset{}
    ensures CutAt(m, L, d, m', L')
    ensures y in m' && m'[y].key == m[y].key
    ensures (m'[y].left == Some(x) && m'[y].right.None?) || (m'[y].right == Some(x) && m'[y].left.None?)
    ensures x in m' && node in m' && node != x && (node != y ==> m'[node] == m[node])
  {
    CutCells(m, root, L, node, y, d, x, m');
    L', lost := CutContents(m, root, L, next, y, d, m');
  }

  /** The cells of `SpliceCut`: `y` keeps its key and only `x` below it, `node` stays. */
  lemma CutCells(m: map<nat, Cell<Option<int>>>, root: Option<nat>, L: Layout,
                 node: nat, y: nat, d: nat, x: nat, m': map<nat, Cell<Option<int>>>)
    requires Shaped(m, root, L) && Linked(m, L) && y in m && d in m && node in m
    requires (m[y].left == Some(d) && m[y].right == Some(x)) || (m[y].left == Some(x) && m[y].right == Some(d))
    requires node == y || Depth(m, root, L, node) < Depth(m, root, L, y)
    requires m' == Pruned(m, L, d, y)
    ensures L.at[d].up == Some(y) && m'.Keys <= m.Keys
    ensures y in m' && m'[y].key == m[y].key
    ensures (m'[y].left == Some(x) && m'[y].right.None?) || (m'[y].right == Some(x) && m'[y].left.None?)
    ensures x in m' && node in m' && node != x && (node != y ==> m'[node] == m[node])
  {
    CutSpares(m, root, L, node, y, d, x);
    assert NodeOk(m, L, d) && d in Below(m, L, d);
  }

  /** The arena of `SpliceCut`: one linked tree that lost the real keys below `d`. */
  lemma CutContents(m: map<nat, Cell<Option<int>>>, root: Option<nat>, L: Layout, next: nat,
                    y: nat, d: nat, m': map<nat, Cell<Option<int>>>)
    returns (L': Layout, lost: multiset<int>)
    requires Arranged(m, root, L, next) && y in m && d in m && L.at[d].up == Some(y)
    requires m' == Pruned(m, L, d, y)
    ensures Arranged(m', root, L', next)
    ensures multiset(Real(Keys(m', L'))) + lost == multiset(Real(Keys(m, L)))
    ensures Sentinels(m, root) && IsNil(m[d]) ==> lost == multiset{}
    ensures CutAt(m, L, d, m', L')
  {
    L' := CutStep(m, root, L, d);
    FreshKept(m, next, m');
    var a, b := L.at[d].lo, L.at[d].hi;
    RealCut(Keys(m, L), a, b);
    lost := multiset(Real(Keys(m, L)[a..b]));
    if Sentinels(m, root) && IsNil(m[d]) {
      SentinelSpan(m, root, L, y, d);
    }
  }

  /** Dropping the slot `t`, which holds `k`, from an in-order loses `k` if it is a key. */
  lemma RealDropped(s: seq<Option<int>>, t: nat, s': seq<Option<int>>)
    requires t < |s| && s' == s[..t] + s[t + 1..]
    ensures multiset(Real(s')) + Bag(s[t]) == multiset(Real(s))
  {
    RealDeleted(s, t);
  }

  /**
   * From `m, L` to `m', L'` the slot of `y` left the in-order and `node`,
   * another node, moved back past it.
   */
  ghost predicate AbsorbedAt(m: map<nat, Cell<Option<int>>>, L: Layout, y: nat,
                             m': map<nat, Cell<Option<int>>>, L': Layout, node: nat)
    requires Indexed(m, L) && Indexed(m', L') && y in m && node in m && node in m'
  {
    && Keys(m', L') == Keys(m, L)[..L.pos[y]] + Keys(m, L)[L.pos[y] + 1..]
    && (node != y ==> L'.pos[node] == Sink(L.pos[node], L.pos[y]))
  }

  /** The cells after `y` took over its child `x`: `x` is gone and only `y` changed its key. */
  lemma TookOverKeys(m: map<nat, Cell<Option<int>>>, y: nat, x: nat, m': map<nat, Cell<Option<int>>>, node: nat)
    requires y in m && x in m && node in m
    requires m' == Reparent(Reparent(TookOver(m, y, x), m[x].right, y), m[x].left, y)
    ensures m'.Keys <= m.Keys && y in m' && m'[y].key == m[x].key
    ensures node != x ==> node in m' && (node != y ==> m'[node].key == m[node].key)
  {
  }

  /**
   * `y` taking over the cell of its only child `x`: one linked tree whose
   * in-order lost the slot of `y`; every other node keeps its key.
   */
  lemma SpliceAbsorb(m: map<nat, Cell<Option<int>>>, root: Option<nat>, L: Layout, next: nat,
                     node: nat, y: nat, x: nat, m': map<nat, Cell<Option<int>>>)
    returns (L': Layout)
    requires Arranged(m, root, L, next) && y in m && x in m && node in m && node != x
    requires (m[y].left == Some(x) && m[y].right.None?) || (m[y].right == Some(x) && m[y].left.None?)
    requires m' == Reparent(Reparent(TookOver(m, y, x), m[x].right, y), m[x].left, y)
    ensures Arranged(m', root, L', next) && m'.Keys <= m.Keys
    ensures multiset(Real(Keys(m', L'))) + Bag(m[y].key) == multiset(Real(Keys(m, L)))
    ensures y in m' && m'[y].key == m[x].key && node in m' && (node != y ==> m'[node].key == m[node].key)
    ensures AbsorbedAt(m, L, y, m', L', node)
  {
    L' := AbsorbArranged(m, root, L, next, y, x, m');
    TookOverKeys(m, y, x, m', node);
    KeyAt(m, L, y);
    RealDropped(Keys(m, L), L.pos[y], Keys(m', L'));
  }

  /** The arena half of `SpliceAbsorb`. */
  lemma AbsorbArranged(m: map<nat, Cell<Option<int>>>, root: Option<nat>, L: Layout, next: nat,
                       y: nat, x: nat, m': map<nat, Cell<Option<int>>>)
    returns (L': Layout)
    requires Arranged(m, root, L, next) && y in m && x in m
    requires (m[y].left == Some(x) && m[y].right.None?) || (m[y].right == Some(x) && m[y].left.None?)
    requires m' == Reparent(Reparent(TookOver(m, y, x), m[x].right, y), m[x].left, y)
    ensures Arranged(m', root, L', next) && L.pos[y] < |L.order|
    ensures Keys(m', L') == Keys(m, L)[..L.pos[y]] + Keys(m, L)[L.pos[y] + 1..]
    ensures forall i | i in m' && i != y :: i in L.pos && i in L'.pos && L'.pos[i] == Sink(L.pos[i], L.pos[y])
  {
    L' := AbsorbRelinkStep(m, root, L, y, x);
    TookOverKeys(m, y, x, m', y);
    FreshKept(m, next, m');
  }

  /** The multiset bookkeeping of the splice: cut, take-over, then the new key. */
  lemma BagsMeet(c3: multiset<int>, c2: multiset<int>, c1: multiset<int>, c0: multiset<int>,
                 lost: multiset<int>, kn: multiset<int>, ky: multiset<int>)
    requires c3 + kn == c2 + ky && c2 + ky == c1 && c1 + lost == c0
    ensures c3 + lost + kn == c0
  {
    assert forall e :: (c3 + lost + kn)[e] == c0[e] by {
      forall e ensures (c3 + lost + kn)[e] == c0[e] {
        assert (c3 + kn)[e] == (c2 + ky)[e];
        assert (c2 + ky)[e] == c1[e];
        assert (c1 + lost)[e] == c0[e];
      }
    }
  }

  /** Overwriting the key of `n` swaps its key, if any, for `k` among the real keys. */
  lemma SpliceRekey(m: map<nat, Cell<Option<int>>>, root: Option<nat>, L: Layout, next: nat,
                    n: nat, k: Option<int>, m': map<nat, Cell<Option<int>>>)
    requires Arranged(m, root, L, next) && n in m && m' == m[n := m[n].(key := k)]
    ensures Arranged(m', root, L, next)
    ensures multiset(Real(Keys(m', L))) + Bag(m[n].key) == multiset(Real(Keys(m, L))) + Bag(k)
  {
    Rekeyed(m, root, L, n, k);
    FreshKept(m, next, m');
    KeyAt(m, L, n);
    RealReplaced(Keys(m, L), L.pos[n], k);
  }

  // ---------------------------------------------------------------------
  // Where the splice sits in the in-order.

  /** `p` is a chain of left links in `m`: each entry is the left child of the one before. */
  ghost predicate LeftPath(m: map<nat, Cell<Option<int>>>, p: seq<nat>)
  {
    && |p| > 0 && (forall i | 0 <= i < |p| :: p[i] in m)
    && forall i | 0 <= i < |p| - 1 :: m[p[i]].left == Some(p[i + 1])
  }

  /** The right child of `i` is there and real. */
  ghost predicate RealRight(m: map<nat, Cell<Option<int>>>, i: nat)
  {
    i in m && m[i].right.Some? && m[i].right.value in m && !IsNil(m[m[i].right.value])
  }

  /** `y` is `node`, or is reached from the right child of `node` by the left links of `path`. */
  ghost predicate Succeeds(m: map<nat, Cell<Option<int>>>, node: nat, y: nat, path: seq<nat>)
  {
    y != node ==> node in m && LeftPath(m, path) && m[node].right == Some(path[0]) && path[|path| - 1] == y
  }

  /**
   * The splice of `remove` as it starts: every non-root sentinel is a leaf,
   * `d` is a sentinel and, when the successor `y` is spliced, its left child.
   */
  ghost predicate Splicing(m: map<nat, Cell<Option<int>>>, root: Option<nat>, node: nat, y: nat, d: nat, path: seq<nat>)
  {
    && Sentinels(m, root) && Succeeds(m, node, y, path) && y in m && d in m && IsNil(m[d])
    && (y != node ==> m[y].left == Some(d))
  }

  /** A chain of left links stays within the span of its first node and starts it. */
  lemma {:induction false} PathSpan(m: map<nat, Cell<Option<int>>>, root: Option<nat>, L: Layout, p: seq<nat>)
    requires Shaped(m, root, L) && LeftPath(m, p)
    ensures L.at[p[|p| - 1]].lo == L.at[p[0]].lo && L.at[p[|p| - 1]].hi <= L.at[p[0]].hi
    decreases |p|
  {
    if |p| > 1 {
      var q := p[..|p| - 1];
      assert LeftPath(m, q);
      PathSpan(m, root, L, q);
      assert NodeOk(m, L, p[|p| - 2]) && NodeOk(m, L, p[|p| - 1]);
    }
  }

  /** A left link from the last node of a chain of left links extends it. */
  lemma LeftPathSnoc(m: map<nat, Cell<Option<int>>>, p: seq<nat>, l: nat)
    requires LeftPath(m, p) && l in m && m[p[|p| - 1]].left == Some(l)
    ensures LeftPath(m, p + [l]) && (p + [l])[0] == p[0] && (p + [l])[|p|] == l
  {
    var q := p + [l];
    forall i | 0 <= i < |q| - 1 ensures m[q[i]].left == Some(q[i + 1]) {
      if i < |p| - 1 {
        assert q[i] == p[i] && q[i + 1] == p[i + 1];
      }
    }
  }

  /**
   * Before `getLeft` on the real end `i` of the chain of left links `p`: a
   * real left child spans less on the same left end; a missing or sentinel
   * one means `i` holds the first key below `p[0]`.
   */
  lemma MinBefore(m: map<nat, Cell<Option<int>>>, root: Option<nat>, L: Layout, p: seq<nat>, i: nat)
    requires Shaped(m, root, L) && LeftPath(m, p) && p[|p| - 1] == i && !IsNil(m[i])
    ensures m[i].left.Some? && m[i].left.value in m && !IsNil(m[m[i].left.value]) ==>
              var c := m[i].left.value; 0 < L.at[c].hi - L.at[c].lo < L.at[i].hi - L.at[i].lo
    ensures Sentinels(m, root) && (m[i].left.None? || (m[i].left.value in m && IsNil(m[m[i].left.value]))) ==>
              SubtreeReals(m, root, L, p[0]) != [] && m[i].key == Some(SubtreeReals(m, root, L, p[0])[0])
  {
    assert NodeOk(m, L, i);
    var left := m[i].left;
    if left.None? || IsNil(m[left.value]) {
      if Sentinels(m, root) {
        PathSpan(m, root, L, p);
        LeftmostIn(m, root, L, p[0], i);
      }
    } else {
      assert NodeOk(m, L, left.value);
    }
  }

  /**
   * After `getLeft` on the end `i` of the chain `p` from `n`: the chain and
   * its extension by the left child `l` are left links, the depths of `n`
   * and `i` stay and `l` is one deeper.
   */
  lemma MinAfter(m: map<nat, Cell<Option<int>>>, col: map<nat, Color>, root: Option<nat>, L: Layout,
                 m': map<nat, Cell<Option<int>>>, col': map<nat, Color>, root': Option<nat>, L': Layout,
                 p: seq<nat>, n: nat, i: nat, l: nat)
    requires Shaped(m, root, L) && Linked(m, L) && Shaped(m', root', L') && Linked(m', L')
    requires Grown(m, col, m', col') && LeftPath(m, p) && p[0] == n && p[|p| - 1] == i
    requires Depth(m, root, L, n) <= Depth(m, root, L, i)
    requires i in m' && m'[i].left == Some(l) && l in m'
    ensures Depth(m', root', L', n) <= Depth(m', root', L', i) && Depth(m', root', L', n) <= Depth(m', root', L', l)
    ensures LeftPath(m', p) && LeftPath(m', p + [l]) && (p + [l])[0] == n && (p + [l])[|p|] == l
  {
    GrownParents(m, col, m', col');
    DepthKept(m, root, L, m', root', L', n);
    DepthKept(m, root, L, m', root', L', i);
    ChildDepth(m', root', L', i, l);
    GrownLeftPath(m, col, m', col', p);
    LeftPathSnoc(m', p, l);
  }

  /** Growing the arena keeps a chain of left links. */
  lemma GrownLeftPath(m: map<nat, Cell<Option<int>>>, col: map<nat, Color>,
                      m': map<nat, Cell<Option<int>>>, col': map<nat, Color>, p: seq<nat>)
    requires Grown(m, col, m', col') && LeftPath(m, p)
    ensures LeftPath(m', p)
  {
    forall i | 0 <= i < |p| - 1 ensures m'[p[i]].left == Some(p[i + 1]) {
      assert m[p[i]].left == Some(p[i + 1]);
    }
  }

  /** Growing the arena keeps the way from a node to its successor. */
  lemma GrownPath(m: map<nat, Cell<Option<int>>>, col: map<nat, Color>,
                  m': map<nat, Cell<Option<int>>>, col': map<nat, Color>, node: nat, y: nat, p: seq<nat>)
    requires Grown(m, col, m', col')
    ensures Succeeds(m, node, y, p) ==> Succeeds(m', node, y, p)
  {
    if y != node && Succeeds(m, node, y, p) {
      GrownLeftPath(m, col, m', col', p);
    }
  }

  /** The keys right of `i` are the keys below its right child. */
  lemma RightSpanReals(m: map<nat, Cell<Option<int>>>, root: Option<nat>, L: Layout, i: nat, r: nat)
    requires Shaped(m, root, L) && i in m && m[i].right == Some(r)
    ensures r in m && RightReals(m, root, L, i) == SubtreeReals(m, root, L, r)
  {
    assert NodeOk(m, L, i) && NodeOk(m, L, r);
  }

  /**
   * The slots of a splice: the sentinel `d` spans one slot, next to that of
   * `y` when `y` is `node`, and between the slots of `node` and of its
   * successor `y` otherwise.
   */
  lemma SpliceSlots(m: map<nat, Cell<Option<int>>>, root: Option<nat>, L: Layout,
                    node: nat, y: nat, d: nat, x: nat, path: seq<nat>)
    requires Shaped(m, root, L) && Splicing(m, root, node, y, d, path) && node in m
    requires (m[y].left == Some(d) && m[y].right == Some(x)) || (m[y].left == Some(x) && m[y].right == Some(d))
    ensures var s, a := Keys(m, L), L.at[d].lo;
      && L.at[d].hi == a + 1 && a < |s| && s[a] == None
      && L.pos[y] < |s| && s[L.pos[y]] == m[y].key && L.pos[node] < |s| && s[L.pos[node]] == m[node].key
      && (y == node ==> a + 1 == L.pos[y] || a == L.pos[y] + 1)
      && (y != node ==> a == L.pos[node] + 1 && L.pos[y] == L.pos[node] + 2)
  {
    NilChildSlot(m, root, L, y, d);
    KeyAt(m, L, y);
    KeyAt(m, L, node);
    assert NodeOk(m, L, y);
    if y != node {
      PathSpan(m, root, L, path);
      assert NodeOk(m, L, node);
    }
  }

  /** The keys of three pieces of an in-order. */
  lemma RealThree(A: seq<Option<int>>, P: seq<Option<int>>, B: seq<Option<int>>)
    ensures Real(A + P + B) == Real(A) + Real(P) + Real(B)
  {
    RealAppend(A + P, B);
    RealAppend(A, P);
  }

  /** The keys of two slots. */
  lemma RealTwo(x: Option<int>, y: Option<int>)
    ensures Real([x, y]) == Real1(x) + Real1(y)
  {
    assert [x, y][1..] == [y] && [y][1..] == [];
    assert Real([y]) == Real1(y) + Real([]);
  }

  /** A sentinel slot at the end adds nothing to the rank. */
  lemma RealNilAfter(A: seq<Option<int>>, x: Option<int>)
    requires x.None?
    ensures Real(A + [x]) == Real(A)
  {
    RealAppend(A, [x]);
    assert [x][1..] == [];
  }

  /** The keys around one slot, read as a rank. */
  lemma WithoutAt(A: seq<int>, k: Option<int>, B: seq<int>)
    ensures Without(A + Real1(k) + B, k, |A|, A + B)
  {
    if k.Some? {
      var c := A + [k.value] + B;
      assert c[..|A|] == A && c[|A| + 1..] == B;
    }
  }

  /** The in-order slots a cut at `a` and a take-over at `p1` leave, `a` and `p` being neighbours. */
  lemma PairShape(s0: seq<Option<int>>, a: nat, p: nat, s1: seq<Option<int>>, p1: nat, s2: seq<Option<int>>)
    requires p < |s0| && (a + 1 == p || a == p + 1) && a < |s0|
    requires s1 == s0[..a] + s0[a + 1..] && p1 == Skip(p, a, a + 1)
    requires p1 < |s1| && s2 == s1[..p1] + s1[p1 + 1..]
    ensures var lo := if a < p then a else p;
      s0 == s0[..lo] + [s0[lo], s0[lo + 1]] + s0[lo + 2..] && s2 == s0[..lo] + s0[lo + 2..]
  {
    var lo := if a < p then a else p;
    assert p1 == lo;
    assert s2 == s0[..lo] + s0[lo + 2..];
    assert s0 == s0[..lo] + [s0[lo], s0[lo + 1]] + s0[lo + 2..];
  }

  /** Of two neighbouring slots `u, v`, one a sentinel, both leave: the key of the other leaves at its rank. */
  lemma PairKeys(A: seq<Option<int>>, u: Option<int>, v: Option<int>, B: seq<Option<int>>, first: bool)
    requires if first then v.None? else u.None?
    ensures var k, r := if first then u else v, if first then Real(A) else Real(A + [u]);
      Without(Real(A + [u, v] + B), k, |r|, Real(A + B))
  {
    var k := if first then u else v;
    RealThree(A, [u, v], B);
    RealTwo(u, v);
    assert Real1(u) + Real1(v) == Real1(k);
    assert Real(A + [u, v] + B) == Real(A) + Real1(k) + Real(B);
    RealAppend(A, B);
    if !first {
      RealNilAfter(A, u);
    }
    WithoutAt(Real(A), k, Real(B));
  }

  /**
   * A node with a sentinel child leaving: the sentinel slot `a` goes with
   * the cut, then the slot `p` of the node with the take-over; its key, if
   * any, leaves the keys at its rank.
   */
  lemma PairOut(s0: seq<Option<int>>, a: nat, p: nat, s1: seq<Option<int>>, p1: nat, s2: seq<Option<int>>)
    requires p < |s0| && (a + 1 == p || a == p + 1) && a < |s0| && s0[a].None?
    requires s1 == s0[..a] + s0[a + 1..] && p1 == Skip(p, a, a + 1)
    requires p1 < |s1| && s2 == s1[..p1] + s1[p1 + 1..]
    ensures Without(Real(s0), s0[p], |Real(s0[..p])|, Real(s2))
  {
    var lo := if a < p then a else p;
    PairShape(s0, a, p, s1, p1, s2);
    var A, u, v, B := s0[..lo], s0[lo], s0[lo + 1], s0[lo + 2..];
    PairKeys(A, u, v, B, p == lo);
    if a < p {
      assert s0[..p] == A + [u];
    }
  }

  /** The in-order slots of the successor's splice. */
  lemma TripleShape(s0: seq<Option<int>>, p: nat, s1: seq<Option<int>>, p1: nat, s2: seq<Option<int>>,
                    p2: nat, s3: seq<Option<int>>)
    requires p + 2 < |s0|
    requires s1 == s0[..p + 1] + s0[p + 2..] && p1 == Skip(p + 2, p + 1, p + 2)
    requires p1 < |s1| && s2 == s1[..p1] + s1[p1 + 1..] && p2 == Sink(Skip(p, p + 1, p + 2), p1)
    requires p2 < |s2| && s3 == s2[p2 := s0[p + 2]]
    ensures s0 == s0[..p] + [s0[p], s0[p + 1]] + ([s0[p + 2]] + s0[p + 3..])
    ensures s3 == s0[..p] + ([s0[p + 2]] + s0[p + 3..])
  {
    assert p1 == p + 1 && p2 == p;
    assert s2 == s0[..p + 1] + s0[p + 3..];
    assert s3 == s0[..p] + ([s0[p + 2]] + s0[p + 3..]);
    assert s0 == s0[..p] + [s0[p], s0[p + 1]] + ([s0[p + 2]] + s0[p + 3..]);
  }

  /**
   * The successor `y` leaving: of the slots `p` (the key of `node`),
   * `p + 1` (the sentinel left of `y`) and `p + 2` (the key of `y`), the cut
   * takes `p + 1`, the take-over the slot of `y`, and slot `p` gets the key
   * of `y`: the key of `node` leaves the keys at its rank.
   */
  lemma TripleOut(s0: seq<Option<int>>, p: nat, s1: seq<Option<int>>, p1: nat, s2: seq<Option<int>>,
                  p2: nat, s3: seq<Option<int>>)
    requires p + 2 < |s0| && s0[p + 1].None?
    requires s1 == s0[..p + 1] + s0[p + 2..] && p1 == Skip(p + 2, p + 1, p + 2)
    requires p1 < |s1| && s2 == s1[..p1] + s1[p1 + 1..] && p2 == Sink(Skip(p, p + 1, p + 2), p1)
    requires p2 < |s2| && s3 == s2[p2 := s0[p + 2]]
    ensures Without(Real(s0), s0[p], |Real(s0[..p])|, Real(s3))
  {
    var A, B := s0[..p], [s0[p + 2]] + s0[p + 3..];
    TripleShape(s0, p, s1, p1, s2, p2, s3);
    RealThree(A, [s0[p], s0[p + 1]], B);
    RealTwo(s0[p], s0[p + 1]);
    RealAppend(A, B);
    assert Real(s0) == Real(A) + Real1(s0[p]) + Real(B);
    WithoutAt(Real(A), s0[p], Real(B));
  }

  /**
   * The in-order across the splice: the cut of the sentinel `d`, the
   * take-over of `y` and, for a successor, the new key of `node` take the
   * key of `node`, if any, out of the keys at its rank `t`.
   */
  lemma SpliceKeys(m0: map<nat, Cell<Option<int>>>, root: Option<nat>, L0: Layout,
                   m1: map<nat, Cell<Option<int>>>, L1: Layout, m2: map<nat, Cell<Option<int>>>, L2: Layout,
                   s3: seq<Option<int>>, node: nat, y: nat, d: nat, x: nat, path: seq<nat>) returns (t: nat)
    requires Shaped(m0, root, L0) && Indexed(m1, L1) && Indexed(m2, L2) && node in m0
    requires Splicing(m0, root, node, y, d, path)
    requires (m0[y].left == Some(d) && m0[y].right == Some(x)) || (m0[y].left == Some(x) && m0[y].right == Some(d))
    requires CutAt(m0, L0, d, m1, L1) && y in m1 && node in m1 && node in m2
    requires AbsorbedAt(m1, L1, y, m2, L2, node)
    requires y == node ==> s3 == Keys(m2, L2)
    requires y != node ==> L2.pos[node] < |L2.order| && s3 == Keys(m2, L2)[L2.pos[node] := m0[y].key]
    ensures Without(Real(Keys(m0, L0)), m0[node].key, t, Real(s3))
  {
    SpliceSlots(m0, root, L0, node, y, d, x, path);
    var s0, a := Keys(m0, L0), L0.at[d].lo;
    if y == node {
      PairOut(s0, a, L0.pos[y], Keys(m1, L1), L1.pos[y], Keys(m2, L2));
      t := |Real(s0[..L0.pos[y]])|;
    } else {
      TripleOut(s0, L0.pos[node], Keys(m1, L1), L1.pos[y], Keys(m2, L2), L2.pos[node], s3);
      t := |Real(s0[..L0.pos[node]])|;
    }
  }

  /**
   * The cut of `d` and the take-over of `x` by `y`, from `m0` to `m2`: one
   * linked tree that lost the key of `y` and those below `d`; starting from
   * a splice, the key of `node`, once `node` has the key of `y`, is the key
   * that left the keys.
   */
  lemma SpliceTwo(m0: map<nat, Cell<Option<int>>>, root: Option<nat>, L0: Layout, next: nat,
                  node: nat, y: nat, d: nat, x: nat, path: seq<nat>,
                  m1: map<nat, Cell<Option<int>>>, m2: map<nat, Cell<Option<int>>>)
    returns (L2: Layout, lost: multiset<int>, t: nat)
    requires Arranged(m0, root, L0, next) && y in m0 && d in m0 && node in m0
    requires (m0[y].left == Some(d) && m0[y].right == Some(x)) || (m0[y].left == Some(x) && m0[y].right == Some(d))
    requires node == y || Depth(m0, root, L0, node) < Depth(m0, root, L0, y)
    requires m1 == Pruned(m0, L0, d, y) && x in m1 && y in m1 && node in m1
    requires m2 == Reparent(Reparent(TookOver(m1, y, x), m1[x].right, y), m1[x].left, y)
    ensures Arranged(m2, root, L2, next) && y in m2 && node in m2 && (node != y ==> m2[node].key == m0[node].key)
    ensures multiset(Real(Keys(m2, L2))) + Bag(m0[y].key) + lost == multiset(Real(Keys(m0, L0)))
    ensures Sentinels(m0, root) && IsNil(m0[d]) ==> lost == multiset{}
    ensures Splicing(m0, root, node, y, d, path) ==>
              if y == node then Without(Real(Keys(m0, L0)), m0[node].key, t, Real(Keys(m2, L2)))
              else L2.pos[node] < |L2.order| &&
                   Without(Real(Keys(m0, L0)), m0[node].key, t, Real(Keys(m2, L2)[L2.pos[node] := m0[y].key]))
  {
    var L1;
    L1, lost := SpliceCut(m0, root, L0, next, node, y, d, x, m1);
    L2 := SpliceAbsorb(m1, root, L1, next, node, y, x, m2);
    t := 0;
    if Splicing(m0, root, node, y, d, path) {
      if y != node {
        KeyAt(m2, L2, node);
      }
      var s3 := if y == node then Keys(m2, L2) else Keys(m2, L2)[L2.pos[node] := m0[y].key];
      t := SpliceKeys(m0, root, L0, m1, L1, m2, L2, s3, node, y, d, x, path);
    }
  }

  /** The whole splice from `m0` to `m3`: `SpliceTwo`, then the new key of `node`. */
  lemma SpliceAll(m0: map<nat, Cell<Option<int>>>, root: Option<nat>, L0: Layout, next: nat,
                  node: nat, y: nat, d: nat, x: nat, path: seq<nat>,
                  m1: map<nat, Cell<Option<int>>>, m2: map<nat, Cell<Option<int>>>, m3: map<nat, Cell<Option<int>>>)
    returns (L3: Layout, lost: multiset<int>, t: nat)
    requires Arranged(m0, root, L0, next) && y in m0 && d in m0 && node in m0
    requires (m0[y].left == Some(d) && m0[y].right == Some(x)) || (m0[y].left == Some(x) && m0[y].right == Some(d))
    requires node == y || Depth(m0, root, L0, node) < Depth(m0, root, L0, y)
    requires m1 == Pruned(m0, L0, d, y) && x in m1 && y in m1 && node in m1
    requires m2 == Reparent(Reparent(TookOver(m1, y, x), m1[x].right, y), m1[x].left, y) && node in m2
    requires m3 == if y != node then m2[node := m2[node].(key := m0[y].key)] else m2
    ensures Arranged(m3, root, L3, next) && y in m3
    ensures Tally(Real(Keys(m3, L3)), lost, m0[node].key, Real(Keys(m0, L0)))
    ensures Sentinels(m0, root) && IsNil(m0[d]) ==> lost == multiset{}
    ensures Splicing(m0, root, node, y, d, path) ==> Without(Real(Keys(m0, L0)), m0[node].key, t, Real(Keys(m3, L3)))
  {
    var ky := m0[y].key;
    L3, lost, t := SpliceTwo(m0, root, L0, next, node, y, d, x, path, m1, m2);
    var kn, c0, c2 := m0[node].key, multiset(Real(Keys(m0, L0))), multiset(Real(Keys(m2, L3)));
    if y != node {
      SpliceRekey(m2, root, L3, next, node, ky, m3);
      Rekeyed(m2, root, L3, node, ky);
    }
    var c3 := multiset(Real(Keys(m3, L3)));
    assert c3 + Bag(kn) == c2 + Bag(ky);
    BagsMeet(c3, c2, c2 + Bag(ky), c0, lost, Bag(kn), Bag(ky));
  }

  /**
   * The cells of the splice: the subtree of `d` is cut off, which leaves
   * `x` the only child of `y`; the identity `y` takes over the cell and the
   * colour of `x`; `node` gets the key `y` had when the two differ.
   */
  method SpliceCells(m0: map<nat, Cell<Option<int>>>, col0: map<nat, Color>, ghost root: Option<nat>, ghost L0: Layout,
                     ghost next: nat, node: nat, y: nat, d: nat, x: nat, ghost path: seq<nat>)
    returns (m3: map<nat, Cell<Option<int>>>, col3: map<nat, Color>, ghost L3: Layout, ghost lost: multiset<int>, ghost t: nat)
    requires Arranged(m0, root, L0, next) && y in m0 && d in m0 && node in m0
    requires (m0[y].left == Some(d) && m0[y].right == Some(x)) || (m0[y].left == Some(x) && m0[y].right == Some(d))
    requires node == y || Depth(m0, root, L0, node) < Depth(m0, root, L0, y)
    ensures Arranged(m3, root, L3, next) && y in m3 && col3 == col0[y := Hue(col0, x)]
    ensures Tally(Real(Keys(m3, L3)), lost, m0[node].key, Real(Keys(m0, L0)))
    ensures Sentinels(m0, root) && IsNil(m0[d]) ==> lost == multiset{}
    ensures Splicing(m0, root, node, y, d, path) ==> Without(Real(Keys(m0, L0)), m0[node].key, t, Real(Keys(m3, L3)))
  {
    var m1 := (m0 - Subtree(m0, root, L0, d))[y := RemoveChild(m0[y], d)];
    CutCells(m0, root, L0, node, y, d, x, m1);
    var m2 := Reparent(Reparent(TookOver(m1, y, x), m1[x].right, y), m1[x].left, y);
    TookOverKeys(m1, y, x, m2, node);
    m3 := if y != node then m2[node := m2[node].(key := m0[y].key)] else m2;
    col3 := col0[y := Hue(col0, x)];
    L3, lost, t := SpliceAll(m0, root, L0, next, node, y, d, x, path, m1, m2, m3);
  }

  /** Repainting only `y` after a growth keeps the colour of every other node that was there. */
  lemma SpliceHues(m0: map<nat, Cell<Option<int>>>, col0: map<nat, Color>, m2: map<nat, Cell<Option<int>>>,
                   col2: map<nat, Color>, y: nat, c: Color, col3: map<nat, Color>)
    requires Grown(m0, col0, m2, col2) && col3 == col2[y := c]
    ensures HuesKept(m0, y, col0, col3)
  {
  }

  /** Taking a key out keeps the keys ascending. */
  lemma WithoutAscending(c: seq<int>, k: Option<int>, t: nat, c': seq<int>)
    requires Without(c, k, t, c') && Ascending(c)
    ensures Ascending(c')
  {
    if k.Some? {
      AscendingDelete(c, t);
    }
  }

  class RedBlackTree {
    var nodes: map<nat, Cell<Option<int>>>
    var color: map<nat, Color>
    var root: Option<nat>
    var nodeCount: int
    /** The identity the next created node gets. */
    var next: nat
    ghost var L: Layout

    /** One linked binary tree; the colours are kept apart in `color`. */
    ghost predicate Tree()
      reads this`nodes, this`root, this`L, this`next
    {
      Arranged(nodes, root, L, next)
    }

    /** The keys of the real nodes in in-order. */
    ghost function Contents(): seq<int>
      reads this`nodes, this`root, this`L, this`next
      requires Tree()
    {
      Real(Keys(nodes, L))
    }

    /** The root is a real node. */
    ghost predicate RootReal()
      reads this`nodes, this`root
    {
      root.Some? && root.value in nodes && !IsNil(nodes[root.value])
    }


    /** An empty tree: no root and a count of zero. */
    constructor ()
      ensures Tree() && Contents() == [] && nodeCount == 0 && root.None?
    {
      nodes := map[];
      color := map[];
      root := None;
      nodeCount := 0;
      next := 0;
      L := Layout([], map[], map[]);
    }

    /**
     * `getLeft`: the left child of `n`; when there is none, a new nil
     * sentinel is created there and returned.
     */
    method GetLeft(n: nat) returns (c: nat)
      requires Tree() && n in nodes
      modifies this`nodes, this`color, this`root, this`next, this`L
      ensures Tree() && n in nodes && c in nodes && nodes[n].left == Some(c) && nodes[c].parent == Some(n)
      ensures old(nodes[n].left).Some? ==>
        (c == old(nodes[n].left.value) && nodes == old(nodes) && color == old(color) && next == old(next) && L == old(L))
      ensures old(nodes[n].left).None? ==>
        (&& c == old(next) && next == old(next) + 1
         && nodes == old(nodes)[n := old(nodes[n]).(left := Some(c))][c := Nil(n)]
         && color == old(color)[c := NewColor(None)])
      ensures root == old(root) && Contents() == old(Contents())
      ensures Grown(old(nodes), old(color), nodes, color)
      ensures old(Sentinels(nodes, root)) && (!IsNil(old(nodes[n])) || old(root) == Some(n)) ==> Sentinels(nodes, root)
    {
      if nodes[n].left.Some? {
        c := nodes[n].left.value;
        assert NodeOk(nodes, L, n) && NodeOk(nodes, L, c);
      } else {
        ghost var m, col := nodes, color;
        NilGrown(m, col, n, next, true);
        if Sentinels(m, root) && (!IsNil(m[n]) || root == Some(n)) {
          NilSentinels(m, root, n, next, true);
        }
        c := HangNil(n, true);
      }
    }

    /** `getRight`: the mirror of `GetLeft`. */
    method GetRight(n: nat) returns (c: nat)
      requires Tree() && n in nodes
      modifies this`nodes, this`color, this`root, this`next, this`L
      ensures Tree() && n in nodes && c in nodes && nodes[n].right == Some(c) && nodes[c].parent == Some(n)
      ensures old(nodes[n].right).Some? ==>
        (c == old(nodes[n].right.value) && nodes == old(nodes) && color == old(color) && next == old(next) && L == old(L))
      ensures old(nodes[n].right).None? ==>
        (&& c == old(next) && next == old(next) + 1
         && nodes == old(nodes)[n := old(nodes[n]).(right := Some(c))][c := Nil(n)]
         && color == old(color)[c := NewColor(None)])
      ensures root == old(root) && Contents() == old(Contents())
      ensures Grown(old(nodes), old(color), nodes, color)
      ensures old(Sentinels(nodes, root)) && (!IsNil(old(nodes[n])) || old(root) == Some(n)) ==> Sentinels(nodes, root)
    {
      if nodes[n].right.Some? {
        c := nodes[n].right.value;
        assert NodeOk(nodes, L, n) && NodeOk(nodes, L, c);
      } else {
        ghost var m, col := nodes, color;
        NilGrown(m, col, n, next, false);
        if Sentinels(m, root) && (!IsNil(m[n]) || root == Some(n)) {
          NilSentinels(m, root, n, next, false);
        }
        c := HangNil(n, false);
      }
    }

    /**
     * `getLeft` (when `left`) or `getRight` on `n`, stated as the delete
     * fixup uses it: the child, and the old node `keep` keeps its depth.
     */
    method Child(n: nat, left: bool, ghost keep: nat) returns (c: nat)
      requires Tree() && n in nodes
      modifies this`nodes, this`color, this`root, this`next, this`L
      ensures Tree() && root == old(root) && Contents() == old(Contents())
      ensures n in nodes && c in nodes && nodes[c].parent == Some(n)
      ensures (if left then nodes[n].left else nodes[n].right) == Some(c)
      ensures Grown(old(nodes), old(color), nodes, color)
      ensures keep in old(nodes) ==> keep in nodes && Depth(nodes, root, L, keep) == old(Depth(nodes, root, L, keep))
    {
      ghost var m0, col0, root0, L0 := nodes, color, root, L;
      if left {
        c := GetLeft(n);
      } else {
        c := GetRight(n);
      }
      GrownParents(m0, col0, nodes, color);
      if keep in m0 {
        DepthKept(m0, root0, L0, nodes, root, L, keep);
      }
    }

    /**
     * A child `i` of `x` other than `y` is neither `x` nor a child of `y`,
     * so a rotation at `x` that raises `y` leaves its parent alone.
     */
    lemma OtherChild(i: nat, x: nat, y: nat)
      requires Tree() && i in nodes && nodes[i].parent == Some(x) && i != y
      requires x in nodes && (nodes[x].left == Some(y) || nodes[x].right == Some(y))
      ensures i != x && y in nodes && (nodes[y].left.Some? ==> nodes[y].left.value != i)
      ensures nodes[y].right.Some? ==> nodes[y].right.value != i
    {
      assert NodeOk(nodes, L, x);
      ChildOf(nodes, root, L, i, x);
      ChildOf(nodes, root, L, y, x);
      assert NodeOk(nodes, L, y);
    }

    /**
     * The near child `wl` of the sibling `w` of a left `node` (or the parent
     * itself, when `w` rose above it): rotating `w` right leaves the parent
     * of `node` alone.
     */
    lemma NearSpots(node: nat, p: nat, w: nat, wl: nat)
      requires Tree() && node in nodes && p in nodes && w in nodes
      requires nodes[node].parent == Some(p) && nodes[p].left == Some(node)
      requires nodes[p].right == Some(w) || (nodes[w].left == Some(p) && nodes[p].parent == Some(w))
      requires nodes[w].left == Some(wl)
      ensures wl in nodes && node != w && node != wl && (nodes[wl].right.Some? ==> nodes[wl].right.value != node)
    {
      ChildOf(nodes, root, L, node, p);
      assert NodeOk(nodes, L, w) && NodeOk(nodes, L, p);
      if nodes[p].right == Some(w) {
        ChildOf(nodes, root, L, w, p);
        assert NodeOk(nodes, L, wl);
      }
    }

    /** The mirror of `NearSpots`, for a right `node`. */
    lemma NearSpotsRight(node: nat, p: nat, w: nat, wr: nat)
      requires Tree() && node in nodes && p in nodes && w in nodes
      requires nodes[node].parent == Some(p) && nodes[p].right == Some(node)
      requires nodes[p].left == Some(w) || (nodes[w].right == Some(p) && nodes[p].parent == Some(w))
      requires nodes[w].right == Some(wr)
      ensures wr in nodes && node != w && node != wr && (nodes[wr].left.Some? ==> nodes[wr].left.value != node)
    {
      ChildOf(nodes, root, L, node, p);
      assert NodeOk(nodes, L, w) && NodeOk(nodes, L, p);
      if nodes[p].left == Some(w) {
        ChildOf(nodes, root, L, w, p);
        assert NodeOk(nodes, L, wr);
      }
    }

    /** `new RedBlackTreeNode(undefined, n)` stored as the left (or right) child of `n`. */
    method HangNil(n: nat, left: bool) returns (c: nat)
      requires Tree() && n in nodes && (if left then nodes[n].left.None? else nodes[n].right.None?)
      modifies this`nodes, this`color, this`root, this`next, this`L
      ensures Tree() && c == old(next) && next == old(next) + 1
      ensures nodes == old(nodes)[n := if left then old(nodes[n]).(left := Some(c)) else old(nodes[n]).(right := Some(c))]
                                 [c := Nil(n)]
      ensures color == old(color)[c := NewColor(None)]
      ensures root == old(root) && Contents() == old(Contents())
    {
      c := next;
      var m := nodes[n := if left then nodes[n].(left := Some(c)) else nodes[n].(right := Some(c))][c := Nil(n)];
      ghost var L' := NilStep(nodes, root, L, next, n, left, m);
      var col := color[c := NewColor(None)];
      assert Arranged(m, root, L', next + 1);
      nodes, color, next, L := m, col, next + 1, L';
    }

    /**
     * `rotateLeft(x)`: the right child `y` of `x` (created as a sentinel if
     * missing) takes the place of `x`, `x` becomes its left child and the
     * left child of `y` moves below `x`. `getRight` on `x`, `getLeft` on `y`
     * and `getLeft` on the parent of `x` run first, as in the source.
     */
    method RotateLeft(x: nat) returns (y: nat)
      requires Tree() && x in nodes
      modifies this`nodes, this`color, this`root, this`next, this`L
      ensures Tree() && Contents() == old(Contents())
      ensures LeftRotated(old(nodes), old(color), old(root), nodes, color, root, x, y) && root.Some?
    {
      ghost var m0, col0, root0 := nodes, color, root;
      RootExists(nodes, root, L, x);
      assert NodeOk(nodes, L, x);
      if nodes[x].parent.Some? {
        assert NodeOk(nodes, L, nodes[x].parent.value);
      }
      y := PrepareLeft(x);
      ghost var m1, col1 := nodes, color;
      RotateLeftSpots(nodes, root, L, x);
      TurnLeft(x);
      LeftRotatedFrom(m0, col0, root0, m1, col1, x, y, nodes, root);
    }

    /** The `getRight`/`getLeft` calls of `rotateLeft(x)`: every node it reads now exists. */
    method PrepareLeft(x: nat) returns (y: nat)
      requires Tree() && x in nodes
      modifies this`nodes, this`color, this`root, this`next, this`L
      ensures Tree() && Contents() == old(Contents()) && root == old(root)
      ensures Grown(old(nodes), old(color), nodes, color)
      ensures x in nodes && nodes[x].right == Some(y) && y in nodes && nodes[y].left.Some?
      ensures nodes[x].parent.Some? ==> nodes[x].parent.value in nodes && nodes[nodes[x].parent.value].left.Some?
      ensures old(nodes[x].right).Some? ==> y == old(nodes[x].right.value)
      ensures nodes[y].left.value in old(nodes) ==> y in old(nodes) && old(nodes)[y].left == nodes[y].left
    {
      y := GetRight(x);
      ghost var m1 := nodes;
      var b := GetLeft(y);
      assert b in old(nodes) ==> b in m1;
      if nodes[x].parent.Some? {
        assert NodeOk(nodes, L, x);
        var p := nodes[x].parent.value;
        var pl := GetLeft(p);
      }
    }

    /** The field writes of `rotateLeft(x)` once every node it reads exists. */
    method TurnLeft(x: nat)
      requires Tree() && x in nodes && nodes[x].right.Some?
      modifies this`nodes, this`color, this`root, this`next, this`L
      ensures LeftTurned(old(nodes), old(root), old(L), x, nodes, root, L)
      ensures Tree() && next == old(next) && color == old(color)
    {
      RotateLeftSpots(nodes, root, L, x);
      var m := LeftRotateCells(nodes, x);
      var root' := if nodes[x].parent.None? then nodes[x].right else root;
      ghost var L' := RotateLeftLinked(nodes, root, L, next, x, m, root');
      assert m.Keys == nodes.Keys;
      nodes := m;
      root := root';
      L := L';
    }

    /** The mirror of `RotateLeft`: `rotateRight(x)`. */
    method RotateRight(x: nat) returns (y: nat)
      requires Tree() && x in nodes
      modifies this`nodes, this`color, this`root, this`next, this`L
      ensures Tree() && Contents() == old(Contents())
      ensures RightRotated(old(nodes), old(color), old(root), nodes, color, root, x, y) && root.Some?
    {
      ghost var m0, col0, root0 := nodes, color, root;
      RootExists(nodes, root, L, x);
      assert NodeOk(nodes, L, x);
      if nodes[x].parent.Some? {
        assert NodeOk(nodes, L, nodes[x].parent.value);
      }
      y := PrepareRight(x);
      ghost var m1, col1 := nodes, color;
      RotateRightSpots(nodes, root, L, x);
      TurnRight(x);
      RightRotatedFrom(m0, col0, root0, m1, col1, x, y, nodes, root);
    }

    /** The `getLeft`/`getRight` calls of `rotateRight(x)`. */
    method PrepareRight(x: nat) returns (y: nat)
      requires Tree() && x in nodes
      modifies this`nodes, this`color, this`root, this`next, this`L
      ensures Tree() && Contents() == old(Contents()) && root == old(root)
      ensures Grown(old(nodes), old(color), nodes, color)
      ensures x in nodes && nodes[x].left == Some(y) && y in nodes && nodes[y].right.Some?
      ensures nodes[x].parent.Some? ==> nodes[x].parent.value in nodes && nodes[nodes[x].parent.value].left.Some?
      ensures old(nodes[x].left).Some? ==> y == old(nodes[x].left.value)
      ensures nodes[y].right.value in old(nodes) ==> y in old(nodes) && old(nodes)[y].right == nodes[y].right
    {
      y := GetLeft(x);
      ghost var m1 := nodes;
      var b := GetRight(y);
      assert b in old(nodes) ==> b in m1;
      if nodes[x].parent.Some? {
        assert NodeOk(nodes, L, x);
        var p := nodes[x].parent.value;
        var pl := GetLeft(p);
      }
    }

    /** The field writes of `rotateRight(x)`. */
    method TurnRight(x: nat)
      requires Tree() && x in nodes && nodes[x].left.Some?
      modifies this`nodes, this`color, this`root, this`next, this`L
      ensures RightTurned(old(nodes), old(root), old(L), x, nodes, root, L)
      ensures Tree() && next == old(next) && color == old(color)
    {
      RotateRightSpots(nodes, root, L, x);
      var m := RightRotateCells(nodes, x);
      var root' := if nodes[x].parent.None? then nodes[x].left else root;
      ghost var L' := RotateRightLinked(nodes, root, L, next, x, m, root');
      assert m.Keys == nodes.Keys;
      nodes := m;
      root := root';
      L := L';
    }

    /**
     * `search(key)`: descend from the root by comparison. A child slot is
     * read with `getLeft`/`getRight`, so a missing child is created as a
     * sentinel just before the descent gives up. A nil root compares equal
     * to every key (`compare(key, undefined)` is 0), so it is returned.
     */
    method Search(key: int) returns (r: Option<nat>)
      requires Tree()
      modifies this`nodes, this`color, this`root, this`next, this`L
      ensures Tree() && root == old(root) && nodeCount == old(nodeCount) && Contents() == old(Contents())
      ensures Grown(old(nodes), old(color), nodes, color)
      ensures old(Sentinels(nodes, root)) ==> Sentinels(nodes, root)
      ensures r.Some? ==> nodes == old(nodes) && color == old(color)
      ensures r.Some? ==> r.value in nodes && (nodes[r.value].key == Some(key) || (r == root && IsNil(nodes[r.value])))
      ensures root.None? ==> r.None?
      ensures root.Some? && IsNil(nodes[root.value]) ==> r == root
      ensures old(Sentinels(nodes, root)) && Ascending(old(Contents())) && old(RootReal()) ==>
                (r.Some? <==> key in Contents())
    {
      if root.None? {
        return None;
      }
      var cur := root.value;
      if IsNil(nodes[cur]) {
        return Some(cur);
      }
      ghost var cond := Sentinels(nodes, root) && Ascending(Contents());
      if cond {
        AscendingReals(Keys(nodes, L));
        assert NodeOk(nodes, L, cur);
      }
      var p, c;
      r, p, c := Descend(cur, key, cond);
    }

    /**
     * `contains(key)`: whether `search` finds a node. On a tree whose root is
     * a nil sentinel (left by removing the last key) it answers true.
     */
    method Contains(key: int) returns (b: bool)
      requires Tree()
      modifies this`nodes, this`color, this`root, this`next, this`L
      ensures Tree() && root == old(root) && nodeCount == old(nodeCount) && Contents() == old(Contents())
      ensures Grown(old(nodes), old(color), nodes, color)
      ensures old(Sentinels(nodes, root)) ==> Sentinels(nodes, root)
      ensures b ==> key in Contents() || (root.Some? && IsNil(nodes[root.value]))
      ensures root.Some? && IsNil(nodes[root.value]) ==> b
      ensures old(Sentinels(nodes, root)) && Ascending(old(Contents())) && old(RootReal()) ==>
                (b <==> key in Contents())
    {
      var r := Search(key);
      if r.Some? && !IsNil(nodes[r.value]) {
        KeyAt(nodes, L, r.value);
        RealMember(Keys(nodes, L), L.pos[r.value]);
      }
      b := r.Some?;
    }

    /**
     * `findMaximum`: no root gives no key. Otherwise follow `getRight` while
     * it yields a real node and answer the key of the last one, which is
     * undefined when the root is a nil sentinel. Each `getRight` on a node
     * without a right child creates a sentinel there.
     */
    method FindMaximum() returns (r: Option<int>)
      requires Tree()
      modifies this`nodes, this`color, this`root, this`next, this`L
      ensures Tree() && root == old(root) && nodeCount == old(nodeCount) && Contents() == old(Contents())
      ensures Grown(old(nodes), old(color), nodes, color)
      ensures old(Sentinels(nodes, root)) ==> Sentinels(nodes, root)
      ensures r.None? <==> !old(RootReal())
      ensures r.Some? ==> r.value in Contents()
      ensures r.Some? && old(Sentinels(nodes, root)) ==> r.value == Contents()[|Contents()| - 1]
    {
      if root.None? {
        return None;
      }
      var n := root.value;
      if IsNil(nodes[n]) {
        var c := GetRight(n);
        return None;
      }
      var k := RightEnd();
      r := Some(k);
    }

    /** The descent of `findMaximum` from a real root: right children while they are real. */
    method RightEnd() returns (k: int)
      requires Tree() && RootReal()
      modifies this`nodes, this`color, this`root, this`next, this`L
      ensures Tree() && root == old(root) && Contents() == old(Contents())
      ensures Grown(old(nodes), old(color), nodes, color)
      ensures old(Sentinels(nodes, root)) ==> Sentinels(nodes, root)
      ensures k in Contents()
      ensures old(Sentinels(nodes, root)) ==> k == Contents()[|Contents()| - 1]
    {
      var n := root.value;
      ghost var cond := Sentinels(nodes, root);
      while true
        invariant nodes == old(nodes) && color == old(color) && L == old(L) && next == old(next)
        invariant root == old(root) && Tree() && RootReal()
        invariant n in nodes && nodes[n].key.Some? && L.at[n].hi == |L.order|
        decreases L.at[n].hi - L.at[n].lo
      {
        var c := SpineRight(n, cond);
        if IsNil(nodes[c]) {
          return nodes[n].key.value;
        }
        n := c;
      }
    }

    /**
     * One step of `findMaximum` at the real node `n`, whose span reaches
     * the end: `getRight` on it. A real child keeps the state; a sentinel
     * read means `n` holds the last key.
     */
    method SpineRight(n: nat, ghost cond: bool) returns (c: nat)
      requires Tree() && RootReal() && n in nodes && nodes[n].key.Some? && L.at[n].hi == |L.order|
      requires cond ==> Sentinels(nodes, root)
      modifies this`nodes, this`color, this`root, this`next, this`L
      ensures Tree() && root == old(root) && Contents() == old(Contents())
      ensures Grown(old(nodes), old(color), nodes, color)
      ensures old(Sentinels(nodes, root)) ==> Sentinels(nodes, root)
      ensures n in nodes && c in nodes && nodes[n].key.Some? && nodes[n].key.value in Contents()
      ensures !IsNil(nodes[c]) ==>
                && nodes == old(nodes) && color == old(color) && L == old(L) && next == old(next)
                && L.at[c].hi == |L.order| && 0 < L.at[c].hi - L.at[c].lo < L.at[n].hi - L.at[n].lo
      ensures IsNil(nodes[c]) && cond ==> Contents() != [] && nodes[n].key.value == Contents()[|Contents()| - 1]
    {
      SpineRightStep(nodes, root, L, n, cond);
      c := GetRight(n);
    }

    /** The mirror of `FindMaximum`, following `getLeft`: the first key. */
    method FindMinimum() returns (r: Option<int>)
      requires Tree()
      modifies this`nodes, this`color, this`root, this`next, this`L
      ensures Tree() && root == old(root) && nodeCount == old(nodeCount) && Contents() == old(Contents())
      ensures Grown(old(nodes), old(color), nodes, color)
      ensures old(Sentinels(nodes, root)) ==> Sentinels(nodes, root)
      ensures r.None? <==> !old(RootReal())
      ensures r.Some? ==> r.value in Contents()
      ensures r.Some? && old(Sentinels(nodes, root)) ==> r.value == Contents()[0]
    {
      if root.None? {
        return None;
      }
      var n := root.value;
      if IsNil(nodes[n]) {
        var c := GetLeft(n);
        return None;
      }
      var k := LeftEnd();
      r := Some(k);
    }

    /** The mirror of `RightEnd`. */
    method LeftEnd() returns (k: int)
      requires Tree() && RootReal()
      modifies this`nodes, this`color, this`root, this`next, this`L
      ensures Tree() && root == old(root) && Contents() == old(Contents())
      ensures Grown(old(nodes), old(color), nodes, color)
      ensures old(Sentinels(nodes, root)) ==> Sentinels(nodes, root)
      ensures k in Contents()
      ensures old(Sentinels(nodes, root)) ==> k == Contents()[0]
    {
      var n := root.value;
      ghost var cond := Sentinels(nodes, root);
      while true
        invariant nodes == old(nodes) && color == old(color) && L == old(L) && next == old(next)
        invariant root == old(root) && Tree() && RootReal()
        invariant n in nodes && nodes[n].key.Some? && L.at[n].lo == 0
        decreases L.at[n].hi - L.at[n].lo
      {
        var c := SpineLeft(n, cond);
        if IsNil(nodes[c]) {
          return nodes[n].key.value;
        }
        n := c;
      }
    }

    /** The mirror of `SpineRight`. */
    method SpineLeft(n: nat, ghost cond: bool) returns (c: nat)
      requires Tree() && RootReal() && n in nodes && nodes[n].key.Some? && L.at[n].lo == 0
      requires cond ==> Sentinels(nodes, root)
      modifies this`nodes, this`color, this`root, this`next, this`L
      ensures Tree() && root == old(root) && Contents() == old(Contents())
      ensures Grown(old(nodes), old(color), nodes, color)
      ensures old(Sentinels(nodes, root)) ==> Sentinels(nodes, root)
      ensures n in nodes && c in nodes && nodes[n].key.Some? && nodes[n].key.value in Contents()
      ensures !IsNil(nodes[c]) ==>
                && nodes == old(nodes) && color == old(color) && L == old(L) && next == old(next)
                && L.at[c].lo == 0 && 0 < L.at[c].hi - L.at[c].lo < L.at[n].hi - L.at[n].lo
      ensures IsNil(nodes[c]) && cond ==> Contents() != [] && nodes[n].key.value == Contents()[0]
    {
      SpineLeftStep(nodes, root, L, n, cond);
      c := GetLeft(n);
    }

    /** `isEmpty`: the count is zero (a tree emptied down to a nil root counts as empty). */
    function IsEmpty(): (r: bool)
      reads this`nodeCount
      ensures r <==> nodeCount == 0
    {
      nodeCount == 0
    }

    /** `size`: the count `add` and `remove` keep. */
    function Size(): (r: int)
      reads this`nodeCount
      ensures r == nodeCount
    {
      nodeCount
    }

    /**
     * The descent shared by `search` and `add`, from the real node `cur` on:
     * compare, and go to the child on the side of `key` while it is real.
     * It ends at a real node holding `key`, or at the sentinel `c` read below
     * the real node `p`.
     */
    method Descend(cur: nat, key: int, ghost cond: bool) returns (r: Option<nat>, p: nat, c: nat)
      requires Tree() && cur in nodes && nodes[cur].key.Some?
      requires cond ==> Sentinels(nodes, root) && RealsAscend(Keys(nodes, L))
      requires cond ==> Beside(Keys(nodes, L), L.at[cur].lo, L.at[cur].hi, key)
      modifies this`nodes, this`color, this`root, this`next, this`L
      ensures Tree() && root == old(root) && Contents() == old(Contents())
      ensures Grown(old(nodes), old(color), nodes, color)
      ensures old(Sentinels(nodes, root)) ==> Sentinels(nodes, root)
      ensures r.Some? ==> nodes == old(nodes) && color == old(color)
      ensures r.Some? ==> r.value in nodes && nodes[r.value].key == Some(key) && key in Contents()
      ensures r.None? ==> p in nodes && c in nodes && IsNil(nodes[c]) && nodes[c].parent == Some(p)
      ensures r.None? && cond ==> key !in Contents()
    {
      var n := cur;
      while true
        invariant nodes == old(nodes) && color == old(color) && L == old(L) && next == old(next)
        invariant root == old(root) && Tree()
        invariant n in nodes && nodes[n].key.Some?
        invariant cond ==> Sentinels(nodes, root) && RealsAscend(Keys(nodes, L))
        invariant cond ==> Beside(Keys(nodes, L), L.at[n].lo, L.at[n].hi, key)
        decreases L.at[n].hi - L.at[n].lo
      {
        if key == nodes[n].key.value {
          KeyAt(nodes, L, n);
          RealMember(Keys(nodes, L), L.pos[n]);
          return Some(n), n, n;
        }
        if key < nodes[n].key.value {
          c := StepLeft(n, key, cond);
        } else {
          c := StepRight(n, key, cond);
        }
        if IsNil(nodes[c]) {
          return None, n, c;
        }
        n := c;
      }
    }

    /**
     * One step of a descent by comparison to the left of the real node
     * `cur`: `getLeft` on it. A real child keeps the state; a sentinel read
     * (created if the slot was empty) ends the descent.
     */
    method StepLeft(cur: nat, key: int, ghost cond: bool) returns (c: nat)
      requires Tree() && cur in nodes && nodes[cur].key.Some? && key < nodes[cur].key.value
      requires cond ==> Sentinels(nodes, root) && RealsAscend(Keys(nodes, L))
      requires cond ==> Beside(Keys(nodes, L), L.at[cur].lo, L.at[cur].hi, key)
      modifies this`nodes, this`color, this`root, this`next, this`L
      ensures Tree() && root == old(root) && Contents() == old(Contents())
      ensures Grown(old(nodes), old(color), nodes, color)
      ensures old(Sentinels(nodes, root)) ==> Sentinels(nodes, root)
      ensures cur in nodes && c in nodes && nodes[cur].left == Some(c) && nodes[c].parent == Some(cur)
      ensures !IsNil(nodes[c]) ==> nodes == old(nodes) && color == old(color) && L == old(L) && next == old(next)
      ensures !IsNil(nodes[c]) ==> 0 < L.at[c].hi - L.at[c].lo < L.at[cur].hi - L.at[cur].lo
      ensures !IsNil(nodes[c]) && cond ==> Beside(Keys(nodes, L), L.at[c].lo, L.at[c].hi, key)
      ensures IsNil(nodes[c]) && cond ==> key !in Contents()
    {
      assert NodeOk(nodes, L, cur);
      if cond {
        DescendLeft(nodes, root, L, cur, key);
      }
      if nodes[cur].left.Some? {
        assert NodeOk(nodes, L, nodes[cur].left.value);
        c := GetLeft(cur);
      } else {
        c := GetLeft(cur);
        assert IsNil(nodes[c]);
      }
    }

    /** The mirror of `StepLeft`. */
    method StepRight(cur: nat, key: int, ghost cond: bool) returns (c: nat)
      requires Tree() && cur in nodes && nodes[cur].key.Some? && key > nodes[cur].key.value
      requires cond ==> Sentinels(nodes, root) && RealsAscend(Keys(nodes, L))
      requires cond ==> Beside(Keys(nodes, L), L.at[cur].lo, L.at[cur].hi, key)
      modifies this`nodes, this`color, this`root, this`next, this`L
      ensures Tree() && root == old(root) && Contents() == old(Contents())
      ensures Grown(old(nodes), old(color), nodes, color)
      ensures old(Sentinels(nodes, root)) ==> Sentinels(nodes, root)
      ensures cur in nodes && c in nodes && nodes[cur].right == Some(c) && nodes[c].parent == Some(cur)
      ensures !IsNil(nodes[c]) ==> nodes == old(nodes) && color == old(color) && L == old(L) && next == old(next)
      ensures !IsNil(nodes[c]) ==> 0 < L.at[c].hi - L.at[c].lo < L.at[cur].hi - L.at[cur].lo
      ensures !IsNil(nodes[c]) && cond ==> Beside(Keys(nodes, L), L.at[c].lo, L.at[c].hi, key)
      ensures IsNil(nodes[c]) && cond ==> key !in Contents()
    {
      assert NodeOk(nodes, L, cur);
      if cond {
        DescendRight(nodes, root, L, cur, key);
      }
      if nodes[cur].right.Some? {
        assert NodeOk(nodes, L, nodes[cur].right.value);
        c := GetRight(cur);
      } else {
        c := GetRight(cur);
        assert IsNil(nodes[c]);
      }
    }

    /**
     * `add(key)`: descend while the node reached is real; a node holding
     * `key` ends it with false. Otherwise `key` goes into the sentinel slot
     * where the descent ended, or becomes a new root when no real node was
     * passed, as a red node; `insertFixup` runs and the count grows.
     */
    method Add(key: int) returns (added: bool)
      requires Tree()
      modifies this
      ensures Tree()
      ensures !added ==> nodeCount == old(nodeCount) && Contents() == old(Contents()) && key in Contents()
      ensures added ==> nodeCount == old(nodeCount) + 1 && root.Some? && Hue(color, root.value) == Black
      ensures added && old(RootReal()) ==> Inserted(old(Contents()), key, Contents())
      ensures added && !old(RootReal()) ==> Contents() == [key]
      ensures old(root).None? ==> added
      ensures old(Sentinels(nodes, root)) && Ascending(old(Contents())) && old(RootReal()) ==>
                (added <==> key !in old(Contents()))
    {
      var found, parent, node := Locate(key);
      if found {
        return false;
      }
      Insert(key, parent, node);
      added := true;
    }

    /** The part of `add` after a descent that did not find `key`. */
    method Insert(key: int, parent: Option<nat>, node: Option<nat>)
      requires Tree()
      requires parent.Some? ==>
        && parent.value in nodes && node.Some? && node.value in nodes
        && IsNil(nodes[node.value]) && nodes[node.value].parent == parent
      modifies this
      ensures Tree() && nodeCount == old(nodeCount) + 1 && root.Some? && Hue(color, root.value) == Black
      ensures parent.Some? ==> Inserted(old(Contents()), key, Contents())
      ensures parent.None? ==> Contents() == [key]
    {
      var n := Put(key, parent, node);
      InsertFixup(n);
      nodeCount := nodeCount + 1;
    }

    /**
     * The descent of `add`: `found` when a real node holds `key`; otherwise
     * the last real node passed (`parent`) and the sentinel read below it
     * (`node`), with no parent when the root is missing or a sentinel.
     */
    method Locate(key: int) returns (found: bool, parent: Option<nat>, node: Option<nat>)
      requires Tree()
      modifies this`nodes, this`color, this`root, this`next, this`L
      ensures Tree() && root == old(root) && Contents() == old(Contents())
      ensures Grown(old(nodes), old(color), nodes, color)
      ensures old(Sentinels(nodes, root)) ==> Sentinels(nodes, root)
      ensures found ==> key in Contents()
      ensures !found && parent.None? ==> !old(RootReal()) && old(root) == node
      ensures !old(RootReal()) ==> !found && parent.None?
      ensures !found && parent.Some? ==>
        && parent.value in nodes && node.Some? && node.value in nodes
        && IsNil(nodes[node.value]) && nodes[node.value].parent == parent
      ensures old(Sentinels(nodes, root)) && Ascending(old(Contents())) && old(RootReal()) ==>
                (found <==> key in Contents())
    {
      if root.None? || IsNil(nodes[root.value]) {
        return false, None, root;
      }
      var cur := root.value;
      ghost var cond := Sentinels(nodes, root) && Ascending(Contents());
      if cond {
        AscendingReals(Keys(nodes, L));
        assert NodeOk(nodes, L, cur);
      }
      var r, p, c := Descend(cur, key, cond);
      found, parent, node := r.Some?, Some(p), Some(c);
    }

    /**
     * The placement of `add`: `key` into the sentinel `node` below
     * `parent`, or as the single node of a new tree when there is no parent;
     * either way the node is coloured red.
     */
    method Put(key: int, parent: Option<nat>, node: Option<nat>) returns (n: nat)
      requires Tree()
      requires parent.Some? ==>
        && parent.value in nodes && node.Some? && node.value in nodes
        && IsNil(nodes[node.value]) && nodes[node.value].parent == parent
      modifies this`nodes, this`color, this`root, this`next, this`L
      ensures Tree() && n in nodes && nodes[n].key == Some(key)
      ensures color == old(color)[n := Red]
      ensures parent.Some? ==>
        && n == node.value && root == old(root) && nodes == old(nodes)[n := old(nodes)[n].(key := Some(key))]
        && Inserted(old(Contents()), key, Contents())
      ensures parent.None? ==> n == old(next) && nodes == map[n := Leaf(key)] && root == Some(n) && Contents() == [key]
    {
      if parent.None? {
        n := next;
        PlantShaped(n, Leaf(key));
        nodes := map[n := Leaf(key)];
        root := Some(n);
        L := Layout([n], map[n := 0], map[n := Span(0, 1, None)]);
        next := next + 1;
        assert Keys(nodes, L) == [Some(key)];
        assert Real([Some(key)]) == [key] + Real([]);
      } else {
        n := node.value;
        ghost var s := Keys(nodes, L);
        KeyAt(nodes, L, n);
        Rekeyed(nodes, root, L, n, Some(key));
        RealFilled(s, L.pos[n], key);
        nodes := nodes[n := nodes[n].(key := Some(key))];
      }
      color := color[n := Red];
    }

    /** The loop condition of `insertFixup`: a parent and a grandparent, and the parent red. */
    predicate Climbing(n: nat)
      reads this
      requires n in nodes
    {
      && nodes[n].parent.Some?
      && var p := nodes[n].parent.value;
      && p in nodes && nodes[p].parent.Some? && Hue(color, p) == Red
    }

    /**
     * `insertFixup(node)`: climb while the parent is red, recolouring past
     * a red uncle or rotating past a black one, then colour the root black.
     */
    method InsertFixup(n: nat)
      requires Tree() && n in nodes
      modifies this`nodes, this`color, this`root, this`next, this`L
      ensures Tree() && Contents() == old(Contents())
      ensures root.Some? && Hue(color, root.value) == Black
    {
      var node := n;
      while Climbing(node)
        invariant Tree() && node in nodes && Contents() == old(Contents())
        decreases if Climbing(node) then 1 else 0, Depth(nodes, root, L, node)
      {
        node := InsertStep(node);
      }
      assert L.pos[node] < |L.order|;
      Paint(root.value, Black);
    }

    /** One pass of the loop of `insertFixup`, split by the side of the parent. */
    method InsertStep(node: nat) returns (r: nat)
      requires Tree() && node in nodes && Climbing(node)
      modifies this`nodes, this`color, this`root, this`next, this`L
      ensures Tree() && r in nodes && Contents() == old(Contents())
      ensures Climbing(r) ==> Depth(nodes, root, L, r) < old(Depth(nodes, root, L, node))
    {
      var p := nodes[node].parent.value;
      var g := nodes[p].parent.value;
      ghost var m0, root0, L0 := nodes, root, L;
      ChildOf(nodes, root, L, node, p);
      ChildOf(nodes, root, L, p, g);
      ChildDepth(nodes, root, L, p, node);
      ChildDepth(nodes, root, L, g, p);
      ghost var col0 := color;
      var gl := GetLeft(g);
      GrownParents(m0, col0, nodes, color);
      DepthKept(m0, root0, L0, nodes, root, L, g);
      if p == gl {
        r := InsertLeft(node, p, g);
      } else {
        ghost var m1, root1, L1, col1 := nodes, root, L, color;
        var gr := GetRight(g);
        GrownParents(m1, col1, nodes, color);
        DepthKept(m1, root1, L1, nodes, root, L, g);
        r := InsertRight(node, p, g);
      }
    }

    /**
     * The branch of `insertFixup` where the parent `p` is the left child of
     * the grandparent `g`: a red uncle is recoloured with the parent and the
     * climb goes on from `g`; a black uncle leads to the rotations.
     */
    method InsertLeft(node: nat, p: nat, g: nat) returns (r: nat)
      requires Tree() && node in nodes && p in nodes && g in nodes
      requires nodes[node].parent == Some(p) && nodes[p].parent == Some(g) && nodes[g].left == Some(p)
      modifies this`nodes, this`color, this`root, this`next, this`L
      ensures Tree() && r in nodes && Contents() == old(Contents())
      ensures Climbing(r) ==> Depth(nodes, root, L, r) <= old(Depth(nodes, root, L, g))
    {
      ghost var m0, root0, L0, col0 := nodes, root, L, color;
      var u := GetRight(g);
      GrownParents(m0, col0, nodes, color);
      DepthKept(m0, root0, L0, nodes, root, L, g);
      r := UncleLeft(node, p, g, u);
    }

    /** The uncle test of the left branch, once the uncle `u` has been read. */
    method UncleLeft(node: nat, p: nat, g: nat, u: nat) returns (r: nat)
      requires Tree() && node in nodes && p in nodes && g in nodes && u in nodes
      requires nodes[node].parent == Some(p) && nodes[p].parent == Some(g) && nodes[g].left == Some(p)
      requires nodes[g].right == Some(u)
      modifies this`nodes, this`color, this`root, this`next, this`L
      ensures Tree() && r in nodes && Contents() == old(Contents())
      ensures Climbing(r) ==> Depth(nodes, root, L, r) <= old(Depth(nodes, root, L, g))
    {
      if Hue(color, u) == Red {
        Paint(p, Black);
        Paint(u, Black);
        r := g;
        Paint(r, Red);
      } else {
        r := InsertLeftRotate(node, p, g);
      }
    }

    /**
     * The black-uncle case of the left branch: an inner grandchild is
     * first rotated outward at its parent; then the parent is coloured
     * black, the grandparent red, and the grandparent rotated, which leaves
     * the node below a black parent.
     */
    method InsertLeftRotate(node: nat, p: nat, g: nat) returns (r: nat)
      requires Tree() && node in nodes && p in nodes && g in nodes
      requires nodes[node].parent == Some(p) && nodes[p].parent == Some(g) && nodes[g].left == Some(p)
      modifies this`nodes, this`color, this`root, this`next, this`L
      ensures Tree() && r in nodes && Contents() == old(Contents())
      ensures !Climbing(r)
    {
      r := OutwardLeft(node, p, g);
      LiftLeft(r);
    }

    /**
     * The inner-grandchild step of the left branch: when `node` is
     * the right child of `p`, the climb moves to `p` and `p` is rotated
     * left. Either way the node reached is the left child of its
     * parent, which is the left child of its own parent.
     */
    method OutwardLeft(node: nat, p: nat, g: nat) returns (x: nat)
      requires Tree() && node in nodes && p in nodes && g in nodes
      requires nodes[node].parent == Some(p) && nodes[p].parent == Some(g) && nodes[g].left == Some(p)
      modifies this`nodes, this`color, this`root, this`next, this`L
      ensures Tree() && x in nodes && Contents() == old(Contents())
      ensures nodes[x].parent.Some? && nodes[x].parent.value in nodes
      ensures var q := nodes[x].parent.value;
        nodes[q].left == Some(x) && nodes[q].parent.Some? && nodes[q].parent.value in nodes
        && nodes[nodes[q].parent.value].left == Some(q)
    {
      x := node;
      ChildOf(nodes, root, L, x, p);
      var pi := GetRight(p);
      if x == pi {
        x := p;
        ChildOf(nodes, root, L, p, g);
        var y := RotateLeft(x);
      } else {
        ChildOf(nodes, root, L, x, p);
      }
    }

    /**
     * The outer rotation of the left branch: colour the parent of
     * `x` black and its grandparent red, then rotate the grandparent
     * right; `x` keeps its parent, now black.
     */
    method LiftLeft(x: nat)
      requires Tree() && x in nodes && nodes[x].parent.Some? && nodes[x].parent.value in nodes
      requires var q := nodes[x].parent.value;
        nodes[q].left == Some(x) && nodes[q].parent.Some? && nodes[q].parent.value in nodes
        && nodes[nodes[q].parent.value].left == Some(q)
      modifies this`nodes, this`color, this`root, this`next, this`L
      ensures Tree() && x in nodes && Contents() == old(Contents())
      ensures !Climbing(x)
    {
      var q := nodes[x].parent.value;
      var g2 := nodes[q].parent.value;
      ChildOf(nodes, root, L, x, q);
      ChildOf(nodes, root, L, q, g2);
      Paint(q, Black);
      Paint(g2, Red);
      var y2 := RotateRight(g2);
    }

    /**
     * The branch of `insertFixup` where the parent `p` is the right child of
     * `g`. With a red uncle it colours `g` black where the mirrored branch
     * colours `p` black, and then colours `g` red again, so `p` stays red.
     */
    method InsertRight(node: nat, p: nat, g: nat) returns (r: nat)
      requires Tree() && node in nodes && p in nodes && g in nodes
      requires nodes[node].parent == Some(p) && nodes[p].parent == Some(g) && nodes[g].right == Some(p)
      modifies this`nodes, this`color, this`root, this`next, this`L
      ensures Tree() && r in nodes && Contents() == old(Contents())
      ensures Climbing(r) ==> Depth(nodes, root, L, r) <= old(Depth(nodes, root, L, g))
    {
      ghost var m0, root0, L0, col0 := nodes, root, L, color;
      var u := GetLeft(g);
      GrownParents(m0, col0, nodes, color);
      DepthKept(m0, root0, L0, nodes, root, L, g);
      r := UncleRight(node, p, g, u);
    }

    /** The uncle test of the right branch, once the uncle `u` has been read. */
    method UncleRight(node: nat, p: nat, g: nat, u: nat) returns (r: nat)
      requires Tree() && node in nodes && p in nodes && g in nodes && u in nodes
      requires nodes[node].parent == Some(p) && nodes[p].parent == Some(g) && nodes[g].right == Some(p)
      requires nodes[g].left == Some(u)
      modifies this`nodes, this`color, this`root, this`next, this`L
      ensures Tree() && r in nodes && Contents() == old(Contents())
      ensures Climbing(r) ==> Depth(nodes, root, L, r) <= old(Depth(nodes, root, L, g))
    {
      if Hue(color, u) == Red {
        Paint(g, Black);
        Paint(u, Black);
        r := g;
        Paint(r, Red);
      } else {
        r := InsertRightRotate(node, p, g);
      }
    }

    /**
     * The black-uncle case of the right branch: an inner grandchild is
     * first rotated outward at its parent; then the parent is coloured
     * black, the grandparent red, and the grandparent rotated, which leaves
     * the node below a black parent.
     */
    method InsertRightRotate(node: nat, p: nat, g: nat) returns (r: nat)
      requires Tree() && node in nodes && p in nodes && g in nodes
      requires nodes[node].parent == Some(p) && nodes[p].parent == Some(g) && nodes[g].right == Some(p)
      modifies this`nodes, this`color, this`root, this`next, this`L
      ensures Tree() && r in nodes && Contents() == old(Contents())
      ensures !Climbing(r)
    {
      r := OutwardRight(node, p, g);
      LiftRight(r);
    }

    /**
     * The inner-grandchild step of the right branch: when `node` is
     * the left child of `p`, the climb moves to `p` and `p` is rotated
     * right. Either way the node reached is the right child of its
     * parent, which is the right child of its own parent.
     */
    method OutwardRight(node: nat, p: nat, g: nat) returns (x: nat)
      requires Tree() && node in nodes && p in nodes && g in nodes
      requires nodes[node].parent == Some(p) && nodes[p].parent == Some(g) && nodes[g].right == Some(p)
      modifies this`nodes, this`color, this`root, this`next, this`L
      ensures Tree() && x in nodes && Contents() == old(Contents())
      ensures nodes[x].parent.Some? && nodes[x].parent.value in nodes
      ensures var q := nodes[x].parent.value;
        nodes[q].right == Some(x) && nodes[q].parent.Some? && nodes[q].parent.value in nodes
        && nodes[nodes[q].parent.value].right == Some(q)
    {
      x := node;
      ChildOf(nodes, root, L, x, p);
      var pi := GetLeft(p);
      if x == pi {
        x := p;
        ChildOf(nodes, root, L, p, g);
        var y := RotateRight(x);
      } else {
        ChildOf(nodes, root, L, x, p);
      }
    }

    /**
     * The outer rotation of the right branch: colour the parent of
     * `x` black and its grandparent red, then rotate the grandparent
     * left; `x` keeps its parent, now black.
     */
    method LiftRight(x: nat)
      requires Tree() && x in nodes && nodes[x].parent.Some? && nodes[x].parent.value in nodes
      requires var q := nodes[x].parent.value;
        nodes[q].right == Some(x) && nodes[q].parent.Some? && nodes[q].parent.value in nodes
        && nodes[nodes[q].parent.value].right == Some(q)
      modifies this`nodes, this`color, this`root, this`next, this`L
      ensures Tree() && x in nodes && Contents() == old(Contents())
      ensures !Climbing(x)
    {
      var q := nodes[x].parent.value;
      var g2 := nodes[q].parent.value;
      ChildOf(nodes, root, L, x, q);
      ChildOf(nodes, root, L, q, g2);
      Paint(q, Black);
      Paint(g2, Red);
      var y2 := RotateLeft(g2);
    }

    /** Both children of `n` are there and real. */
    ghost predicate TwoReal(n: nat)
      reads this`nodes
      requires n in nodes
    {
      && nodes[n].left.Some? && nodes[n].left.value in nodes && !IsNil(nodes[nodes[n].left.value])
      && nodes[n].right.Some? && nodes[n].right.value in nodes && !IsNil(nodes[nodes[n].right.value])
    }

    /**
     * A nil root with two real children: `remove` would look for a successor
     * of the keyless root and find none.
     */
    ghost predicate Wedged()
      reads this`nodes, this`root
    {
      root.Some? && root.value in nodes && IsNil(nodes[root.value]) && TwoReal(root.value)
    }

    /**
     * `remove(key)`: the node `search` finds, if any, loses its key. The
     * node spliced out is that node when it has a nil child and its
     * successor otherwise, whose key then moves into the node found; a black
     * splicee sends the child that took its place to `deleteFixup`. An
     * emptied tree, whose root is a nil sentinel, "removes" any key.
     * `lost` is what a sentinel with real nodes below it would take along,
     * which cannot happen while every sentinel below the root is a leaf.
     */
    method Remove(key: int) returns (removed: bool, ghost lost: multiset<int>, ghost rank: nat)
      requires Tree() && !Wedged()
      modifies this
      ensures Tree()
      ensures !removed ==> nodeCount == old(nodeCount) && Contents() == old(Contents()) && lost == multiset{}
      ensures removed ==> nodeCount == old(nodeCount) - 1
      ensures removed ==>
        multiset(Contents()) + lost + (if old(RootReal()) then multiset{key} else multiset{}) == multiset(old(Contents()))
      ensures removed && old(RootReal()) ==> key in old(Contents())
      ensures old(Sentinels(nodes, root)) ==> lost == multiset{}
      ensures old(root).None? ==> !removed
      ensures old(root).Some? && !old(RootReal()) ==> removed
      ensures old(Sentinels(nodes, root)) && Ascending(old(Contents())) && old(RootReal()) ==>
                (removed <==> key in old(Contents()))
      ensures removed && old(Sentinels(nodes, root)) ==>
                Without(old(Contents()), if old(RootReal()) then Some(key) else None, rank, Contents())
      ensures old(Sentinels(nodes, root)) && Ascending(old(Contents())) ==> Ascending(Contents())
    {
      var r := Search(key);
      if r.None? {
        return false, multiset{}, 0;
      }
      var node := r.value;
      if RootReal() {
        KeyAt(nodes, L, node);
        RealMember(Keys(nodes, L), L.pos[node]);
      }
      ghost var c0, k0 := Contents(), nodes[node].key;
      assert k0 == if RootReal() then Some(key) else None;
      lost, rank := RemoveAt(node);
      removed := true;
      if Sentinels(old(nodes), old(root)) && Ascending(c0) {
        WithoutAscending(c0, k0, rank, Contents());
      }
    }

    /** `remove` once `search` has found `node`: the count drops and the key of `node` leaves. */
    method RemoveAt(node: nat) returns (ghost lost: multiset<int>, ghost rank: nat)
      requires Tree() && node in nodes && (!IsNil(nodes[node]) || (root == Some(node) && !TwoReal(node)))
      modifies this
      ensures Tree() && nodeCount == old(nodeCount) - 1
      ensures Tally(Contents(), lost, old(nodes[node].key), old(Contents()))
      ensures old(Sentinels(nodes, root)) ==> lost == multiset{}
      ensures old(Sentinels(nodes, root)) ==> Without(old(Contents()), old(nodes[node].key), rank, Contents())
    {
      nodeCount := nodeCount - 1;
      var y, path := Splicee(node);
      ghost var last;
      lost, rank, last := SpliceOut(node, y, path);
    }

    /**
     * The node `remove` splices out for `node`: `node` itself when one of
     * its children is a sentinel, else its successor, which is real, deeper
     * and has a sentinel on the left.
     */
    method Splicee(node: nat) returns (y: nat, ghost path: seq<nat>)
      requires Tree() && node in nodes && (!IsNil(nodes[node]) || !TwoReal(node))
      modifies this`nodes, this`color, this`root, this`next, this`L
      ensures Tree() && root == old(root) && Contents() == old(Contents())
      ensures Grown(old(nodes), old(color), nodes, color)
      ensures old(Sentinels(nodes, root)) && (!IsNil(old(nodes[node])) || old(root) == Some(node)) ==>
                Sentinels(nodes, root)
      ensures y in nodes && node in nodes && nodes[y].left.Some? && nodes[y].left.value in nodes
      ensures !IsNil(nodes[nodes[y].left.value]) ==>
                nodes[y].right.Some? && nodes[y].right.value in nodes && IsNil(nodes[nodes[y].right.value])
      ensures y != node ==> && TwoReal(node) && !IsNil(nodes[y]) && IsNil(nodes[nodes[y].left.value])
                            && Depth(nodes, root, L, node) < Depth(nodes, root, L, y)
      ensures Succeeds(nodes, node, y, path) && nodes[node].key == old(nodes[node].key)
    {
      var l := GetLeft(node);
      if IsNil(nodes[l]) {
        return node, [];
      }
      var r := GetRight(node);
      if IsNil(nodes[r]) {
        return node, [];
      }
      var s;
      s, path := TreeSuccessor(node);
      y := s.value;
    }

    /**
     * `treeSuccessor(node)`: the minimum of the right subtree of a real
     * node, the right child being created first if missing. For a nil node
     * the climb that follows never moves, since no parent is the node
     * itself, and the parent is returned.
     */
    method TreeSuccessor(node: nat) returns (s: Option<nat>, ghost path: seq<nat>)
      requires Tree() && node in nodes
      modifies this`nodes, this`color, this`root, this`next, this`L
      ensures Tree() && root == old(root) && Contents() == old(Contents())
      ensures Grown(old(nodes), old(color), nodes, color)
      ensures old(Sentinels(nodes, root)) && (!IsNil(old(nodes[node])) || old(root) == Some(node)) ==>
                Sentinels(nodes, root)
      ensures node in nodes && nodes[node].right.Some? && nodes[node].right.value in nodes
      ensures IsNil(old(nodes[node])) ==> s == old(nodes[node].parent)
      ensures !IsNil(old(nodes[node])) ==>
                && s.Some? && s.value in nodes && Depth(nodes, root, L, node) < Depth(nodes, root, L, s.value)
                && (!IsNil(nodes[nodes[node].right.value]) ==>
                      && !IsNil(nodes[s.value]) && nodes[s.value].left.Some? && nodes[s.value].left.value in nodes
                      && IsNil(nodes[nodes[s.value].left.value]))
      ensures !IsNil(old(nodes[node])) && RealRight(old(nodes), node) ==> s.Some? && Succeeds(nodes, node, s.value, path)
      ensures !IsNil(old(nodes[node])) && RealRight(old(nodes), node) && old(Sentinels(nodes, root)) ==>
                && old(RightReals(nodes, root, L, node)) != [] && s.Some? && s.value in nodes
                && nodes[s.value].key == Some(old(RightReals(nodes, root, L, node))[0])
    {
      var r := GetRight(node);
      if !IsNil(nodes[node]) {
        ghost var m1, L1 := nodes, L;
        RightSpanReals(m1, root, L1, node, r);
        var m;
        m, path := TreeMinimum(r);
        ChildDepth(nodes, root, L, node, r);
        s := Some(m);
      } else {
        s, path := nodes[node].parent, [];
      }
    }

    /**
     * `treeMinimum(n)`: follow left children from a real `n` while the left
     * child is real; the node reached has a sentinel on the left.
     */
    method TreeMinimum(n: nat) returns (m: nat, ghost path: seq<nat>)
      requires Tree() && n in nodes
      modifies this`nodes, this`color, this`root, this`next, this`L
      ensures Tree() && root == old(root) && Contents() == old(Contents())
      ensures Grown(old(nodes), old(color), nodes, color)
      ensures old(Sentinels(nodes, root)) ==> Sentinels(nodes, root)
      ensures n in nodes && m in nodes && Depth(nodes, root, L, n) <= Depth(nodes, root, L, m)
      ensures IsNil(old(nodes[n])) ==> m == n && nodes == old(nodes) && color == old(color)
      ensures !IsNil(old(nodes[n])) ==>
                && !IsNil(nodes[m]) && nodes[m].left.Some? && nodes[m].left.value in nodes
                && IsNil(nodes[nodes[m].left.value])
      ensures !IsNil(old(nodes[n])) ==> LeftPath(nodes, path) && path[0] == n && path[|path| - 1] == m
      ensures !IsNil(old(nodes[n])) && old(Sentinels(nodes, root)) ==>
                old(SubtreeReals(nodes, root, L, n)) != [] && nodes[m].key == Some(old(SubtreeReals(nodes, root, L, n))[0])
    {
      if IsNil(nodes[n]) {
        m, path := n, [n];
      } else {
        m, path := MinWalk(n);
      }
    }

    /** The loop of `treeMinimum` from a real node. */
    method MinWalk(n: nat) returns (m: nat, ghost path: seq<nat>)
      requires Tree() && n in nodes && !IsNil(nodes[n])
      modifies this`nodes, this`color, this`root, this`next, this`L
      ensures Tree() && root == old(root) && Contents() == old(Contents())
      ensures Grown(old(nodes), old(color), nodes, color)
      ensures old(Sentinels(nodes, root)) ==> Sentinels(nodes, root)
      ensures n in nodes && m in nodes && Depth(nodes, root, L, n) <= Depth(nodes, root, L, m)
      ensures !IsNil(nodes[m]) && nodes[m].left.Some? && nodes[m].left.value in nodes && IsNil(nodes[nodes[m].left.value])
      ensures LeftPath(nodes, path) && path[0] == n && path[|path| - 1] == m
      ensures old(Sentinels(nodes, root)) ==>
                old(SubtreeReals(nodes, root, L, n)) != [] && nodes[m].key == Some(old(SubtreeReals(nodes, root, L, n))[0])
    {
      m, path := n, [n];
      while true
        invariant Tree() && nodes == old(nodes) && color == old(color) && L == old(L) && next == old(next)
        invariant root == old(root)
        invariant m in nodes && !IsNil(nodes[m]) && Depth(nodes, root, L, n) <= Depth(nodes, root, L, m)
        invariant LeftPath(nodes, path) && path[0] == n && path[|path| - 1] == m
        decreases L.at[m].hi - L.at[m].lo
      {
        var l := MinStep(m, n, path);
        if IsNil(nodes[l]) {
          return;
        }
        path, m := path + [l], l;
      }
    }

    /**
     * One step of `treeMinimum` from the real node `m` reached by the chain
     * of left links `path` from `n`: the left child of `m`, created if
     * missing. A sentinel there means `m` holds the first key below `n`.
     */
    method MinStep(m: nat, n: nat, ghost path: seq<nat>) returns (l: nat)
      requires Tree() && m in nodes && n in nodes && !IsNil(nodes[m]) && Depth(nodes, root, L, n) <= Depth(nodes, root, L, m)
      requires LeftPath(nodes, path) && path[0] == n && path[|path| - 1] == m
      modifies this`nodes, this`color, this`root, this`next, this`L
      ensures Tree() && root == old(root) && Contents() == old(Contents())
      ensures Grown(old(nodes), old(color), nodes, color)
      ensures old(Sentinels(nodes, root)) ==> Sentinels(nodes, root)
      ensures m in nodes && n in nodes && l in nodes && nodes[m].left == Some(l) && !IsNil(nodes[m])
      ensures Depth(nodes, root, L, n) <= Depth(nodes, root, L, m) && Depth(nodes, root, L, n) <= Depth(nodes, root, L, l)
      ensures LeftPath(nodes, path) && LeftPath(nodes, path + [l]) && (path + [l])[0] == n && (path + [l])[|path|] == l
      ensures !IsNil(nodes[l]) ==>
                && nodes == old(nodes) && color == old(color) && L == old(L) && next == old(next)
                && 0 < L.at[l].hi - L.at[l].lo < L.at[m].hi - L.at[m].lo
      ensures IsNil(nodes[l]) && old(Sentinels(nodes, root)) ==>
                old(SubtreeReals(nodes, root, L, n)) != [] && nodes[m].key == Some(old(SubtreeReals(nodes, root, L, n))[0])
    {
      ghost var m0, col0, root0, L0 := nodes, color, root, L;
      MinBefore(m0, root, L, path, m);
      l := GetLeft(m);
      MinAfter(m0, col0, root0, L0, nodes, color, root, L, path, n, m, l);
    }

    /**
     * The splice of `remove` once `y` is chosen: its child `x`, the real one
     * if the left is real and the right one otherwise, takes the place of
     * `y`, the black splicee's colour sends `x` to `deleteFixup`.
     */
    method SpliceOut(node: nat, y: nat, ghost path: seq<nat>) returns (ghost lost: multiset<int>, ghost t: nat, ghost last: Option<nat>)
      requires Tree() && y in nodes && node in nodes && (!IsNil(nodes[y]) || root == Some(y))
      requires nodes[y].left.Some? && nodes[y].left.value in nodes
      requires !IsNil(nodes[nodes[y].left.value]) ==>
                 nodes[y].right.Some? && nodes[y].right.value in nodes && IsNil(nodes[nodes[y].right.value])
      requires node == y || Depth(nodes, root, L, node) < Depth(nodes, root, L, y)
      modifies this`nodes, this`color, this`root, this`next, this`L
      ensures Tree()
      ensures Tally(Contents(), lost, old(nodes[node].key), old(Contents()))
      ensures old(Sentinels(nodes, root)) ==> lost == multiset{}
      ensures old(Sentinels(nodes, root)) && old(Succeeds(nodes, node, y, path)) &&
              (y != node ==> old(IsNil(nodes[nodes[y].left.value]))) ==>
                Without(old(Contents()), old(nodes[node].key), t, Contents())
      ensures last.Some? <==> old(Hue(color, y)) == Black
      ensures last.Some? ==> last.value in nodes && Hue(color, last.value) == Black
      ensures last.None? ==> HuesKept(old(nodes), y, old(color), color)
    {
      var yc := Hue(color, y);
      ghost var m0, col0 := nodes, color;
      var x, d := Sides(node, y);
      GrownPath(m0, col0, nodes, color, node, y, path);
      ghost var m1, col1 := nodes, color;
      ParentLeft(y, node);
      GrownPath(m1, col1, nodes, color, node, y, path);
      GrownTrans(m0, col0, m1, col1, nodes, color);
      ghost var m2, col2 := nodes, color;
      lost, t := Splice(node, y, d, x, path);
      SpliceHues(m0, col0, m2, col2, y, Hue(col2, x), color);
      last := None;
      if yc == Black {
        ghost var n := DeleteFixup(y);
        last := Some(n);
      }
    }

    /**
     * `y === y.parent.getLeft()`, the test of the splice: a parent of `y`
     * without a left child gets a sentinel there.
     */
    method ParentLeft(y: nat, node: nat)
      requires Tree() && y in nodes && node in nodes && (node == y || Depth(nodes, root, L, node) < Depth(nodes, root, L, y))
      modifies this`nodes, this`color, this`root, this`next, this`L
      ensures Tree() && root == old(root) && Contents() == old(Contents())
      ensures Grown(old(nodes), old(color), nodes, color)
      ensures old(Sentinels(nodes, root)) ==> Sentinels(nodes, root)
      ensures y in nodes && node in nodes && nodes[y] == old(nodes[y])
      ensures node == y || Depth(nodes, root, L, node) < Depth(nodes, root, L, y)
    {
      if nodes[y].parent.Some? {
        var p := nodes[y].parent.value;
        ChildOf(nodes, root, L, y, p);
        assert y < next;
        if Sentinels(nodes, root) {
          ParentHolds(nodes, root, p, y);
        }
        LeftOfParent(p, y, node);
      }
    }

    /** `getLeft` on the parent `p` of `y`, which leaves the cell of `y` and the depths alone. */
    method LeftOfParent(p: nat, y: nat, node: nat)
      requires Tree() && p in nodes && y in nodes && node in nodes && y != p && y < next
      requires Sentinels(nodes, root) ==> !IsNil(nodes[p]) || root == Some(p)
      requires node == y || Depth(nodes, root, L, node) < Depth(nodes, root, L, y)
      modifies this`nodes, this`color, this`root, this`next, this`L
      ensures Tree() && root == old(root) && Contents() == old(Contents())
      ensures Grown(old(nodes), old(color), nodes, color)
      ensures old(Sentinels(nodes, root)) ==> Sentinels(nodes, root)
      ensures y in nodes && node in nodes && nodes[y] == old(nodes[y])
      ensures node == y || Depth(nodes, root, L, node) < Depth(nodes, root, L, y)
    {
      ghost var m0, col0, root0, L0 := nodes, color, root, L;
      var l := GetLeft(p);
      DepthOrderKept(m0, col0, root0, L0, nodes, color, root, L, node, y);
    }

    /**
     * The child `x` that replaces `y`, the left one when it is real and the
     * right one (created if missing) otherwise, and the sentinel `d` beside it.
     */
    method Sides(node: nat, y: nat) returns (x: nat, d: nat)
      requires Tree() && y in nodes && node in nodes && (!IsNil(nodes[y]) || root == Some(y))
      requires nodes[y].left.Some? && nodes[y].left.value in nodes
      requires !IsNil(nodes[nodes[y].left.value]) ==>
                 nodes[y].right.Some? && nodes[y].right.value in nodes && IsNil(nodes[nodes[y].right.value])
      requires node == y || Depth(nodes, root, L, node) < Depth(nodes, root, L, y)
      modifies this`nodes, this`color, this`root, this`next, this`L
      ensures Tree() && root == old(root) && Contents() == old(Contents())
      ensures y in nodes && d in nodes && node in nodes
      ensures (nodes[y].left == Some(d) && nodes[y].right == Some(x)) || (nodes[y].left == Some(x) && nodes[y].right == Some(d))
      ensures IsNil(nodes[d]) && nodes[node].key == old(nodes[node].key) && Hue(color, y) == old(Hue(color, y))
      ensures node == y || Depth(nodes, root, L, node) < Depth(nodes, root, L, y)
      ensures old(Sentinels(nodes, root)) ==> Sentinels(nodes, root)
      ensures Grown(old(nodes), old(color), nodes, color)
      ensures old(IsNil(nodes[nodes[y].left.value])) ==> nodes[y].left == Some(d)
    {
      var yl := nodes[y].left.value;
      if !IsNil(nodes[yl]) {
        x, d := yl, nodes[y].right.value;
      } else {
        ghost var m0, col0, root0, L0 := nodes, color, root, L;
        x := GetRight(y);
        d := yl;
        GrownParents(m0, col0, nodes, color);
        DepthKept(m0, root0, L0, nodes, root, L, node);
        DepthKept(m0, root0, L0, nodes, root, L, y);
      }
    }

    /**
     * `x` takes the place of `y` under the parent of `y`, or as the root:
     * in the arena the identity `y` takes over the cell and the colour of
     * `x`, the other child `d` of `y` is dropped, and `node` receives the
     * key of `y` when the two differ.
     */
    method Splice(node: nat, y: nat, d: nat, x: nat, ghost path: seq<nat>) returns (ghost lost: multiset<int>, ghost t: nat)
      requires Tree() && y in nodes && d in nodes && node in nodes
      requires (nodes[y].left == Some(d) && nodes[y].right == Some(x)) || (nodes[y].left == Some(x) && nodes[y].right == Some(d))
      requires node == y || Depth(nodes, root, L, node) < Depth(nodes, root, L, y)
      modifies this`nodes, this`color, this`L
      ensures Tree() && y in nodes && color == old(color)[y := Hue(old(color), x)]
      ensures Tally(Contents(), lost, old(nodes[node].key), old(Contents()))
      ensures old(Sentinels(nodes, root)) && IsNil(old(nodes[d])) ==> lost == multiset{}
      ensures old(Splicing(nodes, root, node, y, d, path)) ==> Without(old(Contents()), old(nodes[node].key), t, Contents())
    {
      var m3, col3;
      ghost var L3;
      m3, col3, L3, lost, t := SpliceCells(nodes, color, root, L, next, node, y, d, x, path);
      nodes, color, L := m3, col3, L3;
    }

    /**
     * `deleteFixup(node)`: while the node is a black non-root, work on its
     * sibling: recolour and climb, or rotate and stop at the root. The node
     * reached is coloured black.
     */
    method DeleteFixup(n: nat) returns (ghost last: nat)
      requires Tree() && n in nodes
      modifies this`nodes, this`color, this`root, this`next, this`L
      ensures Tree() && Contents() == old(Contents())
      ensures last in nodes && Hue(color, last) == Black
      ensures old(Hue(color, n)) == Red || old(root) == Some(n) ==>
                last == n && nodes == old(nodes) && root == old(root) && color == old(color)[n := Black]
    {
      var node := n;
      while Some(node) != root && Hue(color, node) == Black
        invariant Tree() && node in nodes && Contents() == old(Contents())
        invariant old(Hue(color, n)) == Red || old(root) == Some(n) ==>
                    node == n && nodes == old(nodes) && root == old(root) && color == old(color)
        decreases if Some(node) != root && Hue(color, node) == Black then 1 else 0, Depth(nodes, root, L, node)
      {
        node := DeleteStep(node);
      }
      last := node;
      Paint(node, Black);
    }

    /** One pass of the `deleteFixup` loop: the node to go on with is the root or is higher up. */
    method DeleteStep(node: nat) returns (r: nat)
      requires Tree() && node in nodes && Some(node) != root
      modifies this`nodes, this`color, this`root, this`next, this`L
      ensures Tree() && Contents() == old(Contents())
      ensures r in nodes && (Some(r) == root || Depth(nodes, root, L, r) < old(Depth(nodes, root, L, node)))
    {
      assert NodeOk(nodes, L, node);
      var p := nodes[node].parent.value;
      ChildOf(nodes, root, L, node, p);
      ghost var bound := Depth(nodes, root, L, node);
      var pl := Child(p, true, p);
      if pl == node {
        r := DeleteLeft(node, p, bound);
      } else {
        r := DeleteRight(node, p, bound);
      }
    }

    /**
     * The left case of `deleteFixup`: a red sibling `w` is recoloured and
     * rotated above the parent first; `w` keeps naming it afterwards.
     */
    method DeleteLeft(node: nat, p: nat, ghost bound: nat) returns (r: nat)
      requires Tree() && node in nodes && p in nodes && nodes[node].parent == Some(p) && nodes[p].left == Some(node)
      requires Depth(nodes, root, L, p) < bound
      modifies this`nodes, this`color, this`root, this`next, this`L
      ensures Tree() && Contents() == old(Contents())
      ensures r in nodes && (Some(r) == root || Depth(nodes, root, L, r) < bound)
    {
      var w := Child(p, false, p);
      ChildOf(nodes, root, L, node, p);
      ChildDepth(nodes, root, L, p, w);
      if Hue(color, w) == Red {
        RedSiblingLeft(node, p, w);
      }
      r := SiblingLeft(node, p, w, bound);
    }

    /**
     * `w.color = black; node.parent.color = red; rotateLeft(node.parent)`:
     * a red sibling becomes the grandparent, and the red parent then has the
     * sibling's old near child as its new sibling.
     */
    method RedSiblingLeft(node: nat, p: nat, w: nat)
      requires Tree() && node in nodes && p in nodes && w in nodes
      requires nodes[node].parent == Some(p) && nodes[p].left == Some(node) && nodes[p].right == Some(w)
      modifies this`nodes, this`color, this`root, this`next, this`L
      ensures Tree() && Contents() == old(Contents())
      ensures node in nodes && p in nodes && w in nodes
      ensures nodes[node].parent == Some(p) && nodes[p].left == Some(node)
      ensures nodes[w].left == Some(p) && Hue(color, p) == Red && nodes[p].parent == Some(w)
    {
      assert NodeOk(nodes, L, w);
      ChildOf(nodes, root, L, node, p);
      ChildDepth(nodes, root, L, p, w);
      if nodes[w].left.Some? {
        ChildDepth(nodes, root, L, w, nodes[w].left.value);
      }
      Paint(w, Black);
      Paint(p, Red);
      var risen := RotateLeft(p);
    }

    /**
     * The sibling `w` of a left `node`: with two black children it turns
     * red and the parent is next; otherwise `FarLeft` ends the loop.
     */
    method SiblingLeft(node: nat, p: nat, w: nat, ghost bound: nat) returns (r: nat)
      requires Tree() && node in nodes && p in nodes && w in nodes
      requires nodes[node].parent == Some(p) && nodes[p].left == Some(node)
      requires || (nodes[p].right == Some(w) && Depth(nodes, root, L, p) < bound)
               || (nodes[w].left == Some(p) && Hue(color, p) == Red && nodes[p].parent == Some(w))
      modifies this`nodes, this`color, this`root, this`next, this`L
      ensures Tree() && Contents() == old(Contents())
      ensures r in nodes && (Some(r) == root || Depth(nodes, root, L, r) < bound)
    {
      var both := BothBlack(w, true, p);
      if both {
        Paint(w, Red);
        r := p;
      } else {
        r := FarLeft(node, p, w);
      }
    }

    /**
     * The test `w.getLeft().color === 'black' && w.getRight().color ===
     * 'black'` (with the right child read first when not `leftFirst`): the
     * second child is read only when the first is black.
     */
    method BothBlack(w: nat, leftFirst: bool, ghost keep: nat) returns (both: bool)
      requires Tree() && w in nodes
      modifies this`nodes, this`color, this`root, this`next, this`L
      ensures Tree() && root == old(root) && Contents() == old(Contents())
      ensures w in nodes && Grown(old(nodes), old(color), nodes, color)
      ensures keep in old(nodes) ==> keep in nodes && Depth(nodes, root, L, keep) == old(Depth(nodes, root, L, keep))
      ensures var first := if leftFirst then old(nodes[w].left) else old(nodes[w].right);
        first.Some? && Hue(color, first.value) == Red ==> !both
    {
      var a := Child(w, leftFirst, keep);
      both := Hue(color, a) == Black;
      if both {
        var b := Child(w, !leftFirst, keep);
        both := Hue(color, b) == Black;
      }
    }

    /**
     * The sibling `w` of a left `node` with a red child: a black far child
     * first has the near one rotated up in its place; then `w` takes the
     * parent's colour, the parent and the far child turn black, a left
     * rotation at the parent follows and the loop ends at the root.
     */
    method FarLeft(node: nat, p: nat, w: nat) returns (r: nat)
      requires Tree() && node in nodes && p in nodes && w in nodes
      requires nodes[node].parent == Some(p) && nodes[p].left == Some(node)
      requires nodes[p].right == Some(w) || (nodes[w].left == Some(p) && nodes[p].parent == Some(w))
      modifies this`nodes, this`color, this`root, this`next, this`L
      ensures Tree() && Contents() == old(Contents())
      ensures Some(r) == root && r in nodes
    {
      var s := w;
      var wr := Child(w, false, w);
      if Hue(color, wr) == Black {
        s := NearLeft(node, p, w);
      }
      r := TurnFarLeft(p, s);
    }

    /**
     * The end of the left case: the sibling `s` takes the colour of the
     * parent `p`, `p` and the right child of `s` turn black and `p` is
     * rotated left; the loop ends at the root.
     */
    method TurnFarLeft(p: nat, s: nat) returns (r: nat)
      requires Tree() && p in nodes && s in nodes
      modifies this`nodes, this`color, this`root, this`next, this`L
      ensures Tree() && Contents() == old(Contents())
      ensures Some(r) == root && r in nodes
    {
      RecolorFarLeft(p, s);
      var risen := RotateLeft(p);
      r := root.value;
    }

    /** The colour changes before that rotation. */
    method RecolorFarLeft(p: nat, s: nat)
      requires Tree() && p in nodes && s in nodes
      modifies this`nodes, this`color, this`root, this`next, this`L
      ensures Tree() && Contents() == old(Contents()) && p in nodes
    {
      Paint(s, Hue(color, p));
      Paint(p, Black);
      var sr := Child(s, false, s);
      Paint(sr, Black);
    }

    /**
     * A black far child: the near child of `w` turns black, `w` red, a right
     * rotation at `w` follows, and the new sibling is the parent's right child.
     */
    method NearLeft(node: nat, p: nat, w: nat) returns (s: nat)
      requires Tree() && node in nodes && p in nodes && w in nodes
      requires nodes[node].parent == Some(p) && nodes[p].left == Some(node)
      requires nodes[p].right == Some(w) || (nodes[w].left == Some(p) && nodes[p].parent == Some(w))
      modifies this`nodes, this`color, this`root, this`next, this`L
      ensures Tree() && Contents() == old(Contents())
      ensures node in nodes && p in nodes && s in nodes && nodes[node].parent == Some(p) && nodes[p].right == Some(s)
    {
      var wl := Child(w, true, w);
      Paint(wl, Black);
      Paint(w, Red);
      NearTurnLeft(node, p, w, wl);
      s := Child(p, false, p);
    }

    /** The rotation of `NearLeft` at `w`: `node` keeps its parent. */
    method NearTurnLeft(node: nat, p: nat, w: nat, wl: nat)
      requires Tree() && node in nodes && p in nodes && w in nodes
      requires nodes[node].parent == Some(p) && nodes[p].left == Some(node)
      requires nodes[p].right == Some(w) || (nodes[w].left == Some(p) && nodes[p].parent == Some(w))
      requires nodes[w].left == Some(wl)
      modifies this`nodes, this`color, this`root, this`next, this`L
      ensures Tree() && Contents() == old(Contents())
      ensures node in nodes && p in nodes && nodes[node].parent == Some(p)
    {
      NearSpots(node, p, w, wl);
      var risen := RotateRight(w);
    }

    /** The mirror of `DeleteLeft`, for a right `node`. */
    method DeleteRight(node: nat, p: nat, ghost bound: nat) returns (r: nat)
      requires Tree() && node in nodes && p in nodes && nodes[node].parent == Some(p) && nodes[p].right == Some(node)
      requires Depth(nodes, root, L, p) < bound
      modifies this`nodes, this`color, this`root, this`next, this`L
      ensures Tree() && Contents() == old(Contents())
      ensures r in nodes && (Some(r) == root || Depth(nodes, root, L, r) < bound)
    {
      var w := Child(p, true, p);
      ChildOf(nodes, root, L, node, p);
      ChildDepth(nodes, root, L, p, w);
      if Hue(color, w) == Red {
        RedSiblingRight(node, p, w);
      }
      r := SiblingRight(node, p, w, bound);
    }

    /**
     * The mirror of `RedSiblingLeft`, ending in `rotateRight(node.parent)`.
     */
    method RedSiblingRight(node: nat, p: nat, w: nat)
      requires Tree() && node in nodes && p in nodes && w in nodes
      requires nodes[node].parent == Some(p) && nodes[p].right == Some(node) && nodes[p].left == Some(w)
      modifies this`nodes, this`color, this`root, this`next, this`L
      ensures Tree() && Contents() == old(Contents())
      ensures node in nodes && p in nodes && w in nodes
      ensures nodes[node].parent == Some(p) && nodes[p].right == Some(node)
      ensures nodes[w].right == Some(p) && Hue(color, p) == Red && nodes[p].parent == Some(w)
    {
      assert NodeOk(nodes, L, w);
      ChildOf(nodes, root, L, node, p);
      ChildDepth(nodes, root, L, p, w);
      if nodes[w].right.Some? {
        ChildDepth(nodes, root, L, w, nodes[w].right.value);
      }
      Paint(w, Black);
      Paint(p, Red);
      var risen := RotateRight(p);
    }

    /** The mirror of `SiblingLeft`; the near child, here the right one, is looked at first. */
    method SiblingRight(node: nat, p: nat, w: nat, ghost bound: nat) returns (r: nat)
      requires Tree() && node in nodes && p in nodes && w in nodes
      requires nodes[node].parent == Some(p) && nodes[p].right == Some(node)
      requires || (nodes[p].left == Some(w) && Depth(nodes, root, L, p) < bound)
               || (nodes[w].right == Some(p) && Hue(color, p) == Red && nodes[p].parent == Some(w))
      modifies this`nodes, this`color, this`root, this`next, this`L
      ensures Tree() && Contents() == old(Contents())
      ensures r in nodes && (Some(r) == root || Depth(nodes, root, L, r) < bound)
    {
      var both := BothBlack(w, false, p);
      if both {
        Paint(w, Red);
        r := p;
      } else {
        r := FarRight(node, p, w);
      }
    }

    /** The mirror of `FarLeft`. */
    method FarRight(node: nat, p: nat, w: nat) returns (r: nat)
      requires Tree() && node in nodes && p in nodes && w in nodes
      requires nodes[node].parent == Some(p) && nodes[p].right == Some(node)
      requires nodes[p].left == Some(w) || (nodes[w].right == Some(p) && nodes[p].parent == Some(w))
      modifies this`nodes, this`color, this`root, this`next, this`L
      ensures Tree() && Contents() == old(Contents())
      ensures Some(r) == root && r in nodes
    {
      var s := w;
      var wl := Child(w, true, w);
      if Hue(color, wl) == Black {
        s := NearRight(node, p, w);
      }
      r := TurnFarRight(p, s);
    }

    /** The mirror of `TurnFarLeft`. */
    method TurnFarRight(p: nat, s: nat) returns (r: nat)
      requires Tree() && p in nodes && s in nodes
      modifies this`nodes, this`color, this`root, this`next, this`L
      ensures Tree() && Contents() == old(Contents())
      ensures Some(r) == root && r in nodes
    {
      RecolorFarRight(p, s);
      var risen := RotateRight(p);
      r := root.value;
    }

    /** The colour changes before that rotation. */
    method RecolorFarRight(p: nat, s: nat)
      requires Tree() && p in nodes && s in nodes
      modifies this`nodes, this`color, this`root, this`next, this`L
      ensures Tree() && Contents() == old(Contents()) && p in nodes
    {
      Paint(s, Hue(color, p));
      Paint(p, Black);
      var sl := Child(s, true, s);
      Paint(sl, Black);
    }

    /** The mirror of `NearLeft`. */
    method NearRight(node: nat, p: nat, w: nat) returns (s: nat)
      requires Tree() && node in nodes && p in nodes && w in nodes
      requires nodes[node].parent == Some(p) && nodes[p].right == Some(node)
      requires nodes[p].left == Some(w) || (nodes[w].right == Some(p) && nodes[p].parent == Some(w))
      modifies this`nodes, this`color, this`root, this`next, this`L
      ensures Tree() && Contents() == old(Contents())
      ensures node in nodes && p in nodes && s in nodes && nodes[node].parent == Some(p) && nodes[p].left == Some(s)
    {
      var wr := Child(w, false, w);
      Paint(wr, Black);
      Paint(w, Red);
      NearTurnRight(node, p, w, wr);
      s := Child(p, true, p);
    }

    /** The rotation of `NearRight` at `w`: `node` keeps its parent. */
    method NearTurnRight(node: nat, p: nat, w: nat, wr: nat)
      requires Tree() && node in nodes && p in nodes && w in nodes
      requires nodes[node].parent == Some(p) && nodes[p].right == Some(node)
      requires nodes[p].left == Some(w) || (nodes[w].right == Some(p) && nodes[p].parent == Some(w))
      requires nodes[w].right == Some(wr)
      modifies this`nodes, this`color, this`root, this`next, this`L
      ensures Tree() && Contents() == old(Contents())
      ensures node in nodes && p in nodes && nodes[node].parent == Some(p)
    {
      NearSpotsRight(node, p, w, wr);
      var risen := RotateLeft(w);
    }

    /** `n.color = c`. */
    method Paint(n: nat, c: Color)
      requires Tree() && n in nodes
      modifies this`color
      ensures Tree() && color == old(color)[n := c]
    {
      color := color[n := c];
    }
  }
}
