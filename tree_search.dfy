/**
 * What a comparison-directed descent learns about the in-order key
 * sequence, and where the leftmost and rightmost nodes sit in it. These are
 * the facts behind every `contains`, `add`, `remove`, `findMinimum` and
 * `findMaximum` loop of the search trees.
 */
module TreeSearch {
  import opened Common
  import opened Arena

  /**
   * Every key before index `lo` is below `key` and every key from index `hi`
   * on is above it: a key equal to `key` can only be inside `[lo, hi)`.
   */
  ghost predicate Outside(s: seq<int>, lo: int, hi: int, key: int)
  {
    && (forall j | 0 <= j < |s| && j < lo :: s[j] < key)
    && (forall j | 0 <= j < |s| && hi <= j :: key < s[j])
  }

  /** The key of node `i` is the in-order key at its index. */
  lemma KeyAt<K>(m: map<nat, Cell<K>>, L: Layout, i: nat)
    requires Indexed(m, L) && i in m
    ensures L.pos[i] < |Keys(m, L)| && Keys(m, L)[L.pos[i]] == m[i].key
  {
  }

  /** A window that has closed leaves no place for `key`. */
  lemma OutsideEmpty(s: seq<int>, t: int, key: int)
    requires Outside(s, t, t, key)
    ensures key !in s
  {
  }

  /**
   * Going left from `i` because `key` is smaller than its key narrows the
   * window to the left subtree; with no left child the key is absent.
   */
  lemma GoLeft(m: map<nat, Cell<int>>, L: Layout, i: nat, key: int)
    requires Indexed(m, L) && i in m && NodeOk(m, L, i)
    requires Ascending(Keys(m, L)) && Outside(Keys(m, L), L.at[i].lo, L.at[i].hi, key)
    requires key < m[i].key
    ensures Outside(Keys(m, L), L.at[i].lo, L.pos[i], key)
    ensures m[i].left.None? ==> key !in Keys(m, L)
  {
    var s := Keys(m, L);
    KeyAt(m, L, i);
    forall j | 0 <= j < |s| && L.pos[i] <= j ensures key < s[j] {
      if j > L.pos[i] {
        assert s[L.pos[i]] < s[j];
      }
    }
    if m[i].left.None? {
      OutsideEmpty(s, L.pos[i], key);
    }
  }

  /** The mirror of `GoLeft`. */
  lemma GoRight(m: map<nat, Cell<int>>, L: Layout, i: nat, key: int)
    requires Indexed(m, L) && i in m && NodeOk(m, L, i)
    requires Ascending(Keys(m, L)) && Outside(Keys(m, L), L.at[i].lo, L.at[i].hi, key)
    requires key > m[i].key
    ensures Outside(Keys(m, L), L.pos[i] + 1, L.at[i].hi, key)
    ensures m[i].right.None? ==> key !in Keys(m, L)
  {
    var s := Keys(m, L);
    KeyAt(m, L, i);
    forall j | 0 <= j < |s| && j < L.pos[i] + 1 ensures s[j] < key {
      if j < L.pos[i] {
        assert s[j] < s[L.pos[i]];
      }
    }
    if m[i].right.None? {
      OutsideEmpty(s, L.pos[i] + 1, key);
    }
  }

  /**
   * A node whose span starts at index 0 and that has no left child is first
   * in the in-order; on an ascending sequence its key is the least.
   */
  lemma Leftmost(m: map<nat, Cell<int>>, L: Layout, i: nat)
    requires Indexed(m, L) && i in m && NodeOk(m, L, i)
    requires L.at[i].lo == 0 && m[i].left.None?
    ensures 0 < |Keys(m, L)| && Keys(m, L)[0] == m[i].key
    ensures Ascending(Keys(m, L)) ==> forall j | 0 <= j < |Keys(m, L)| :: m[i].key <= Keys(m, L)[j]
  {
    KeyAt(m, L, i);
  }

  /** The mirror of `Leftmost`: the last node of the in-order. */
  lemma Rightmost(m: map<nat, Cell<int>>, L: Layout, i: nat)
    requires Indexed(m, L) && i in m && NodeOk(m, L, i)
    requires L.at[i].hi == |L.order| && m[i].right.None?
    ensures 0 < |Keys(m, L)| && Keys(m, L)[|Keys(m, L)| - 1] == m[i].key
    ensures Ascending(Keys(m, L)) ==> forall j | 0 <= j < |Keys(m, L)| :: Keys(m, L)[j] <= m[i].key
  {
    KeyAt(m, L, i);
  }

  /**
   * `findParentOfMinimum(node, parent)`: follow left links from `node`; the
   * result is the parent of the last node reached. When `node` has a left
   * child that last node is the result's left child, and it is the first
   * node of the subtree of `node` in the in-order.
   */
  function FindParentOfMinimum<K>(m: map<nat, Cell<K>>, ghost root: Option<nat>, ghost L: Layout,
                                  node: nat, parent: nat): (p: nat)
    requires Shaped(m, root, L) && node in m && parent in m && L.at[node].up == Some(parent)
    ensures p in m
    ensures m[node].left.None? ==> p == parent
    ensures m[node].left.Some? ==>
      && m[p].left.Some? && m[p].left.value in m
      && m[m[p].left.value].left.None?
      && L.pos[m[p].left.value] == L.at[node].lo
      && L.at[m[p].left.value].up == Some(p)
    decreases L.at[node].hi - L.at[node].lo
  {
    assert NodeOk(m, L, node);
    if m[node].left.None? then parent
    else
      var l := m[node].left.value;
      assert NodeOk(m, L, l);
      FindParentOfMinimum(m, root, L, l, node)
  }
}
