/**
 * Cutting a whole subtree out of a tree: a node `d` with a parent and every
 * node below it leave the arena together, and their indices leave the
 * in-order as one block. This is what an overwritten child link does to
 * the nodes only that link reached.
 */
module TreeCut {
  import opened Common
  import opened Arena
  import opened TreeEdit

  /** An index outside the block `[a, b)` after the block went away. */
  function Skip(v: nat, a: nat, b: nat): (r: nat)
    requires a <= b
    ensures v < b ==> r == v
    ensures v >= b ==> r == v - (b - a)
  {
    if v >= b then v - (b - a) else v
  }

  /** The layout after the block `[a, b)` of the in-order went away. */
  ghost function Cut(L: Layout, a: nat, b: nat): Layout
    requires a <= b <= |L.order|
  {
    Layout(L.order[..a] + L.order[b..],
           map i | i in L.pos :: Skip(L.pos[i], a, b),
           map i | i in L.at :: Span(Skip(L.at[i].lo, a, b), Skip(L.at[i].hi, a, b), L.at[i].up))
  }

  /** The nodes of the subtree of `d`: those whose index lies in its span. */
  ghost function Below<K>(m: map<nat, Cell<K>>, L: Layout, d: nat): set<nat>
    requires Covers(m, L) && d in m
  {
    set i | i in m && L.at[d].lo <= L.pos[i] < L.at[d].hi
  }

  /**
   * The ids of the subtree of `d`, collected by following the child links
   * (the layout only bounds the recursion).
   */
  function Subtree<K>(m: map<nat, Cell<K>>, ghost root: Option<nat>, ghost L: Layout, d: nat): (r: set<nat>)
    requires Shaped(m, root, L) && d in m
    ensures r == Below(m, L, d)
    decreases L.at[d].hi - L.at[d].lo
  {
    assert NodeOk(m, L, d);
    var left := if m[d].left.Some? then ChildSmaller(m, L, d, m[d].left.value); Subtree(m, root, L, m[d].left.value) else {};
    var right := if m[d].right.Some? then ChildSmaller(m, L, d, m[d].right.value); Subtree(m, root, L, m[d].right.value) else {};
    SubtreeSplit(m, root, L, d);
    left + {d} + right
  }

  /** The span of `d` is the span of its left subtree, its own index and the span of its right subtree. */
  lemma SubtreeSplit<K>(m: map<nat, Cell<K>>, root: Option<nat>, L: Layout, d: nat)
    requires Shaped(m, root, L) && d in m
    ensures (m[d].left.Some? ==> m[d].left.value in m) && (m[d].right.Some? ==> m[d].right.value in m)
    ensures Below(m, L, d) ==
      (if m[d].left.Some? then Below(m, L, m[d].left.value) else {}) + {d} +
      (if m[d].right.Some? then Below(m, L, m[d].right.value) else {})
  {
    assert NodeOk(m, L, d);
    forall i | i in m && L.pos[i] == L.pos[d] ensures i == d {
      OrderAt(m, L, i);
      OrderAt(m, L, d);
    }
  }

  /** `m` without the subtree of `d`, unhooked from its parent `p`. */
  ghost function Pruned<K>(m: map<nat, Cell<K>>, L: Layout, d: nat, p: nat): map<nat, Cell<K>>
    requires Covers(m, L) && d in m && p in m
  {
    (m - Below(m, L, d))[p := RemoveChild(m[p], d)]
  }

  // ---------------------------------------------------------------------
  // Spans of a tree nest.

  /** Two spans that share an index: one of the two nodes lies in the other's span. */
  lemma {:induction false} Overlap<K>(m: map<nat, Cell<K>>, root: Option<nat>, L: Layout, i: nat, d: nat, j: nat)
    requires Shaped(m, root, L) && i in m && d in m && j in m
    requires L.at[i].lo <= L.pos[j] < L.at[i].hi && L.at[d].lo <= L.pos[j] < L.at[d].hi
    ensures (L.at[i].lo <= L.pos[d] < L.at[i].hi) || (L.at[d].lo <= L.pos[i] < L.at[d].hi)
    decreases |L.order| - (L.at[j].hi - L.at[j].lo)
  {
    assert NodeOk(m, L, j);
    if j != i && j != d {
      Nested(m, root, L, i, j);
      Nested(m, root, L, d, j);
      var q := L.at[j].up.value;
      assert NodeOk(m, L, q);
      ChildSmaller(m, L, q, j);
      Overlap(m, root, L, i, d, q);
    }
  }

  /** A node outside the subtree of `d` has a span that holds that subtree or misses it. */
  lemma Laminar<K>(m: map<nat, Cell<K>>, root: Option<nat>, L: Layout, d: nat, i: nat)
    requires Shaped(m, root, L) && d in m && i in m
    requires !(L.at[d].lo <= L.pos[i] < L.at[d].hi)
    ensures || (L.at[i].lo <= L.at[d].lo && L.at[d].hi <= L.at[i].hi)
            || L.at[i].hi <= L.at[d].lo || L.at[d].hi <= L.at[i].lo
  {
    assert NodeOk(m, L, i) && NodeOk(m, L, d);
    if L.at[i].lo <= L.pos[d] < L.at[i].hi {
      Nested(m, root, L, i, d);
    } else if !(L.at[i].hi <= L.at[d].lo || L.at[d].hi <= L.at[i].lo) {
      var q := if L.at[i].lo <= L.at[d].lo then L.at[d].lo else L.at[i].lo;
      var j := L.order[q];
      Overlap(m, root, L, i, d, j);
    }
  }

  /** The parent and the children of a node outside the subtree of `d` are outside it too. */
  lemma OutsideNeighbours<K>(m: map<nat, Cell<K>>, root: Option<nat>, L: Layout, d: nat, i: nat)
    requires Shaped(m, root, L) && d in m && i in m
    requires !(L.at[d].lo <= L.pos[i] < L.at[d].hi)
    ensures m[i].left.Some? && m[i].left != Some(d) ==> var l := m[i].left.value;
      l in m && !(L.at[d].lo <= L.pos[l] < L.at[d].hi)
    ensures m[i].right.Some? && m[i].right != Some(d) ==> var r := m[i].right.value;
      r in m && !(L.at[d].lo <= L.pos[r] < L.at[d].hi)
    ensures L.at[i].up.Some? ==> var q := L.at[i].up.value;
      q in m && !(L.at[d].lo <= L.pos[q] < L.at[d].hi)
  {
    assert NodeOk(m, L, i);
    if m[i].left.Some? && m[i].left != Some(d) {
      var l := m[i].left.value;
      if L.at[d].lo <= L.pos[l] < L.at[d].hi {
        Nested(m, root, L, d, l);
      }
    }
    if m[i].right.Some? && m[i].right != Some(d) {
      var r := m[i].right.value;
      if L.at[d].lo <= L.pos[r] < L.at[d].hi {
        Nested(m, root, L, d, r);
      }
    }
    if L.at[i].up.Some? {
      var q := L.at[i].up.value;
      assert NodeOk(m, L, q);
      if L.at[d].lo <= L.pos[q] < L.at[d].hi {
        Nested(m, root, L, d, q);
      }
    }
  }

  // ---------------------------------------------------------------------
  // The cut keeps one tree.

  /** `d` hangs below `p`, which lies outside the span of `d`. */
  ghost predicate CutSpot<K>(m: map<nat, Cell<K>>, L: Layout, d: nat, p: nat)
  {
    && Indexed(m, L) && d in m && p in m && L.at[d].up == Some(p)
    && (m[p].left == Some(d) || m[p].right == Some(d))
    && L.at[d].lo <= L.pos[d] < L.at[d].hi <= |L.order|
    && !(L.at[d].lo <= L.pos[p] < L.at[d].hi)
  }

  lemma CutSpotOf<K>(m: map<nat, Cell<K>>, root: Option<nat>, L: Layout, d: nat)
    requires Shaped(m, root, L) && d in m && L.at[d].up.Some?
    ensures CutSpot(m, L, d, L.at[d].up.value)
  {
    assert NodeOk(m, L, d);
    var p := L.at[d].up.value;
    assert NodeOk(m, L, p);
  }

  lemma CutIndexed<K>(m: map<nat, Cell<K>>, L: Layout, d: nat, p: nat)
    requires CutSpot(m, L, d, p)
    ensures Indexed(Pruned(m, L, d, p), Cut(L, L.at[d].lo, L.at[d].hi))
  {
    var a, b := L.at[d].lo, L.at[d].hi;
    var m', L' := Pruned(m, L, d, p), Cut(L, a, b);
    forall j | 0 <= j < |L'.order| ensures L'.order[j] in m' && L'.pos[L'.order[j]] == j {
      if j < a {
        assert L'.order[j] == L.order[j];
      } else {
        assert L'.order[j] == L.order[j + (b - a)];
      }
    }
    forall i | i in m' ensures L'.pos[i] < |L'.order| && L'.order[L'.pos[i]] == i {
      var v := L.pos[i];
      if v < a {
        assert L'.order[v] == L.order[v];
      } else {
        assert L'.order[v - (b - a)] == L.order[v];
      }
    }
  }

  /** The parent of the cut subtree keeps its local invariant with that slot empty. */
  lemma CutAtParent<K>(m: map<nat, Cell<K>>, root: Option<nat>, L: Layout, d: nat, p: nat)
    requires Shaped(m, root, L) && CutSpot(m, L, d, p)
    requires Covers(Pruned(m, L, d, p), Cut(L, L.at[d].lo, L.at[d].hi))
    ensures NodeOk(Pruned(m, L, d, p), Cut(L, L.at[d].lo, L.at[d].hi), p)
  {
    var a, b := L.at[d].lo, L.at[d].hi;
    assert NodeOk(m, L, p) && NodeOk(m, L, d);
    NotOwnChild(m, L, p);
    OutsideNeighbours(m, root, L, d, p);
    Laminar(m, root, L, d, p);
  }

  /** Every other node left over keeps its local invariant. */
  lemma CutElsewhere<K>(m: map<nat, Cell<K>>, root: Option<nat>, L: Layout, d: nat, p: nat, i: nat)
    requires Shaped(m, root, L) && CutSpot(m, L, d, p)
    requires Covers(Pruned(m, L, d, p), Cut(L, L.at[d].lo, L.at[d].hi))
    requires i in Pruned(m, L, d, p) && i != p
    ensures NodeOk(Pruned(m, L, d, p), Cut(L, L.at[d].lo, L.at[d].hi), i)
  {
    assert NodeOk(m, L, i);
    assert m[i].left != Some(d) && m[i].right != Some(d) by {
      if m[i].left == Some(d) || m[i].right == Some(d) {
        ChildSmaller(m, L, i, d);
      }
    }
    OutsideNeighbours(m, root, L, d, i);
    CutSpan(m, root, L, d, p, i);
  }

  /** A node left over still sits inside its own span. */
  lemma CutSpan<K>(m: map<nat, Cell<K>>, root: Option<nat>, L: Layout, d: nat, p: nat, i: nat)
    requires Shaped(m, root, L) && CutSpot(m, L, d, p)
    requires Covers(Pruned(m, L, d, p), Cut(L, L.at[d].lo, L.at[d].hi))
    requires i in Pruned(m, L, d, p)
    ensures SpanOk(Pruned(m, L, d, p), Cut(L, L.at[d].lo, L.at[d].hi), i)
  {
    assert NodeOk(m, L, i);
    Laminar(m, root, L, d, i);
  }

  lemma CutNodes<K>(m: map<nat, Cell<K>>, root: Option<nat>, L: Layout, d: nat, p: nat)
    requires Shaped(m, root, L) && CutSpot(m, L, d, p)
    requires Covers(Pruned(m, L, d, p), Cut(L, L.at[d].lo, L.at[d].hi))
    ensures forall i | i in Pruned(m, L, d, p) :: NodeOk(Pruned(m, L, d, p), Cut(L, L.at[d].lo, L.at[d].hi), i)
  {
    forall i | i in Pruned(m, L, d, p) ensures NodeOk(Pruned(m, L, d, p), Cut(L, L.at[d].lo, L.at[d].hi), i) {
      if i == p {
        CutAtParent(m, root, L, d, p);
      } else {
        CutElsewhere(m, root, L, d, p, i);
      }
    }
  }

  lemma CutRoot<K>(m: map<nat, Cell<K>>, root: Option<nat>, L: Layout, d: nat, p: nat)
    requires Shaped(m, root, L) && CutSpot(m, L, d, p)
    requires Covers(Pruned(m, L, d, p), Cut(L, L.at[d].lo, L.at[d].hi))
    ensures RootOk(Pruned(m, L, d, p), root, Cut(L, L.at[d].lo, L.at[d].hi))
  {
    var r := root.value;
    assert NodeOk(m, L, r);
    if L.at[d].lo <= L.pos[r] < L.at[d].hi {
      Nested(m, root, L, d, r);
    }
  }

  lemma CutKeys<K>(m: map<nat, Cell<K>>, L: Layout, d: nat, p: nat)
    requires CutSpot(m, L, d, p)
    requires Listed(Pruned(m, L, d, p), Cut(L, L.at[d].lo, L.at[d].hi))
    ensures Keys(Pruned(m, L, d, p), Cut(L, L.at[d].lo, L.at[d].hi))
      == Keys(m, L)[..L.at[d].lo] + Keys(m, L)[L.at[d].hi..]
  {
    var a, b := L.at[d].lo, L.at[d].hi;
    var m', L' := Pruned(m, L, d, p), Cut(L, a, b);
    var s, s' := Keys(m, L), Keys(m', L');
    forall j | 0 <= j < |s'| ensures s'[j] == (s[..a] + s[b..])[j] {
      if j < a {
        assert L'.order[j] == L.order[j];
      } else {
        assert L'.order[j] == L.order[j + (b - a)];
      }
    }
  }

  lemma CutLinked<K>(m: map<nat, Cell<K>>, L: Layout, d: nat, p: nat)
    requires CutSpot(m, L, d, p) && Linked(m, L)
    requires Covers(Pruned(m, L, d, p), Cut(L, L.at[d].lo, L.at[d].hi))
    ensures Linked(Pruned(m, L, d, p), Cut(L, L.at[d].lo, L.at[d].hi))
  {
  }

  /**
   * Cutting the subtree of `d` away from its parent removes exactly the
   * block of its span from the in-order and leaves a tree with the same root.
   */
  lemma CutStep<K>(m: map<nat, Cell<K>>, root: Option<nat>, L: Layout, d: nat) returns (L': Layout)
    requires Shaped(m, root, L) && d in m && L.at[d].up.Some?
    ensures var p := L.at[d].up.value;
      var a, b := L.at[d].lo, L.at[d].hi;
      && p in m && p !in Below(m, L, d) && d in Below(m, L, d)
      && a <= b <= |L.order| && (m[p].left == Some(d) || m[p].right == Some(d))
      && Shaped(Pruned(m, L, d, p), root, L')
      && Keys(Pruned(m, L, d, p), L') == Keys(m, L)[..a] + Keys(m, L)[b..]
      && (Linked(m, L) ==> Linked(Pruned(m, L, d, p), L'))
      && (forall i | i in L.pos :: i in L'.pos && L'.pos[i] == Skip(L.pos[i], a, b))
  {
    CutSpotOf(m, root, L, d);
    var p := L.at[d].up.value;
    CutIndexed(m, L, d, p);
    CutNodes(m, root, L, d, p);
    CutRoot(m, root, L, d, p);
    CutKeys(m, L, d, p);
    if Linked(m, L) {
      CutLinked(m, L, d, p);
    }
    L' := Cut(L, L.at[d].lo, L.at[d].hi);
  }
}
