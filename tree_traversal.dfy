/**
 * The three stack-based traversals every binary tree of the library
 * inherits (`traversePreOrder`, `traverseInOrder`, `traversePostOrder`).
 * `visit(key)` is modelled as appending the key to the output sequence. Each
 * traversal is proved against a recursive definition of its order, and the
 * in-order one is the in-order key sequence of the layout.
 */
module Traversal {
  import opened Common
  import opened Arena

  /** Every node of the arena keeps its local invariant (any tree shape). */
  ghost predicate Wf<K>(m: map<nat, Cell<K>>, L: Layout)
  {
    Indexed(m, L) && forall i {:trigger NodeOk(m, L, i)} | i in m :: NodeOk(m, L, i)
  }

  /** A binary tree as a value: what the subtree below a node looks like. */
  datatype Tree<K> = Nil | Node(left: Tree<K>, key: K, right: Tree<K>)

  function Size<K>(t: Tree<K>): nat
  {
    if t.Nil? then 0 else Size(t.left) + 1 + Size(t.right)
  }

  /** Node, left subtree, right subtree. */
  function PreOrder<K>(t: Tree<K>): seq<K>
  {
    if t.Nil? then [] else [t.key] + PreOrder(t.left) + PreOrder(t.right)
  }

  /** Left subtree, node, right subtree. */
  function InOrder<K>(t: Tree<K>): seq<K>
  {
    if t.Nil? then [] else InOrder(t.left) + [t.key] + InOrder(t.right)
  }

  /** Left subtree, right subtree, node. */
  function PostOrder<K>(t: Tree<K>): seq<K>
  {
    if t.Nil? then [] else PostOrder(t.left) + PostOrder(t.right) + [t.key]
  }

  /** The number of in-order slots the subtree at `x` covers. */
  ghost function Width<K>(m: map<nat, Cell<K>>, L: Layout, x: Option<nat>): nat
    requires Covers(m, L) && (x.Some? ==> x.value in m)
  {
    if x.Some? && L.at[x.value].lo <= L.at[x.value].hi then L.at[x.value].hi - L.at[x.value].lo else 0
  }

  /** The subtree of the arena rooted at `x`, as a value. */
  ghost function View<K>(m: map<nat, Cell<K>>, L: Layout, x: Option<nat>): (t: Tree<K>)
    requires Wf(m, L) && (x.Some? ==> x.value in m)
    ensures t.Nil? <==> x.None?
    decreases Width(m, L, x)
  {
    if x.None? then Nil
    else
      var i := x.value;
      assert NodeOk(m, L, i);
      ChildrenSmaller(m, L, i);
      Node(View(m, L, m[i].left), m[i].key, View(m, L, m[i].right))
  }

  /** Both children of `i` are nodes with smaller subtrees. */
  lemma ChildrenSmaller<K>(m: map<nat, Cell<K>>, L: Layout, i: nat)
    requires Indexed(m, L) && i in m && NodeOk(m, L, i)
    ensures m[i].left.Some? ==> m[i].left.value in m && Width(m, L, m[i].left) < Width(m, L, Some(i))
    ensures m[i].right.Some? ==> m[i].right.value in m && Width(m, L, m[i].right) < Width(m, L, Some(i))
  {
  }

  // ---------------------------------------------------------------------
  // What the three orders are.

  /** The in-order traversal of a subtree is the slice of the in-order keys its span covers. */
  lemma {:induction false} InOrderSpan<K>(m: map<nat, Cell<K>>, L: Layout, i: nat)
    requires Wf(m, L) && i in m
    ensures L.at[i].lo <= L.at[i].hi <= |L.order|
    ensures InOrder(View(m, L, Some(i))) == Keys(m, L)[L.at[i].lo..L.at[i].hi]
    decreases Width(m, L, Some(i))
  {
    assert NodeOk(m, L, i);
    ChildrenSmaller(m, L, i);
    var s := Keys(m, L);
    if m[i].left.Some? {
      InOrderSpan(m, L, m[i].left.value);
    }
    if m[i].right.Some? {
      InOrderSpan(m, L, m[i].right.value);
    }
    assert InOrder(View(m, L, m[i].left)) == s[L.at[i].lo..L.pos[i]];
    assert InOrder(View(m, L, m[i].right)) == s[L.pos[i] + 1..L.at[i].hi];
    assert s[L.pos[i]] == m[i].key;
    assert s[L.at[i].lo..L.at[i].hi] == s[L.at[i].lo..L.pos[i]] + [s[L.pos[i]]] + s[L.pos[i] + 1..L.at[i].hi];
  }

  /** From the root, the in-order traversal is exactly the in-order key sequence. */
  lemma InOrderIsKeys<K>(m: map<nat, Cell<K>>, root: Option<nat>, L: Layout)
    requires Shaped(m, root, L)
    ensures InOrder(View(m, L, root)) == Keys(m, L)
  {
    if root.Some? {
      InOrderSpan(m, L, root.value);
      assert Keys(m, L)[0..|L.order|] == Keys(m, L);
    }
  }

  /** The pre-order and the post-order visit the same keys, as often, as the in-order. */
  lemma {:induction false} SameVisits<K>(t: Tree<K>)
    ensures multiset(PreOrder(t)) == multiset(InOrder(t))
    ensures multiset(PostOrder(t)) == multiset(InOrder(t))
  {
    if t.Node? {
      SameVisits(t.left);
      SameVisits(t.right);
    }
  }

  /** Each traversal visits every node once: as many keys as nodes. */
  lemma {:induction false} VisitCount<K>(t: Tree<K>)
    ensures |PreOrder(t)| == |InOrder(t)| == |PostOrder(t)| == Size(t)
  {
    if t.Node? {
      VisitCount(t.left);
      VisitCount(t.right);
    }
  }

  // ---------------------------------------------------------------------
  // The stack loops.

  /** What the pre-order still owes for the pending stack (top last): each subtree in turn. */
  ghost function PrePending<K>(m: map<nat, Cell<K>>, L: Layout, stack: seq<nat>): seq<K>
    requires Wf(m, L) && forall k | 0 <= k < |stack| :: stack[k] in m
  {
    if |stack| == 0 then []
    else PreOrder(View(m, L, Some(stack[|stack| - 1]))) + PrePending(m, L, stack[..|stack| - 1])
  }

  /**
   * `traversePreOrder`: pop a node, visit it, push its right and then its
   * left child. Nothing is visited on an empty tree.
   */
  method TraversePreOrder<K>(m: map<nat, Cell<K>>, root: Option<nat>, ghost L: Layout) returns (out: seq<K>)
    requires Shaped(m, root, L)
    ensures out == PreOrder(View(m, L, root))
    ensures root.None? ==> out == []
  {
    out := [];
    if root.None? {
      return;
    }
    var stack := [root.value];
    ghost var goal := PreOrder(View(m, L, root));
    assert PrePending(m, L, stack) == goal;
    while |stack| > 0
      invariant forall k | 0 <= k < |stack| :: stack[k] in m
      invariant out + PrePending(m, L, stack) == goal
      decreases |goal| - |out|
    {
      var top := stack[|stack| - 1];
      PreStep(m, L, stack, out, goal);
      stack := stack[..|stack| - 1];
      out := out + [m[top].key];
      if m[top].right.Some? {
        stack := stack + [m[top].right.value];
      }
      if m[top].left.Some? {
        stack := stack + [m[top].left.value];
      }
    }
  }

  /** Pushing a child, when there is one, puts its subtree in front of what is owed. */
  lemma PrePush<K>(m: map<nat, Cell<K>>, L: Layout, stack: seq<nat>, child: Option<nat>)
    requires Wf(m, L) && (forall k | 0 <= k < |stack| :: stack[k] in m) && (child.Some? ==> child.value in m)
    ensures var s' := if child.Some? then stack + [child.value] else stack;
      && (forall k | 0 <= k < |s'| :: s'[k] in m)
      && PrePending(m, L, s') == PreOrder(View(m, L, child)) + PrePending(m, L, stack)
  {
    if child.Some? {
      assert (stack + [child.value])[..|stack|] == stack;
    } else {
      assert [] + PrePending(m, L, stack) == PrePending(m, L, stack);
    }
  }

  /** One round of the pre-order loop keeps what is visited plus what is owed. */
  lemma PreStep<K>(m: map<nat, Cell<K>>, L: Layout, stack: seq<nat>, out: seq<K>, goal: seq<K>)
    requires Wf(m, L) && |stack| > 0 && forall k | 0 <= k < |stack| :: stack[k] in m
    requires out + PrePending(m, L, stack) == goal
    ensures var top := stack[|stack| - 1];
      var s1 := stack[..|stack| - 1];
      var s2 := if m[top].right.Some? then s1 + [m[top].right.value] else s1;
      var s3 := if m[top].left.Some? then s2 + [m[top].left.value] else s2;
      && (forall k | 0 <= k < |s3| :: s3[k] in m)
      && (out + [m[top].key]) + PrePending(m, L, s3) == goal
  {
    var top := stack[|stack| - 1];
    assert NodeOk(m, L, top);
    var s1 := stack[..|stack| - 1];
    PrePush(m, L, s1, m[top].right);
    var s2 := if m[top].right.Some? then s1 + [m[top].right.value] else s1;
    PrePush(m, L, s2, m[top].left);
    Regroup(out, [m[top].key], PreOrder(View(m, L, m[top].left)), PreOrder(View(m, L, m[top].right)),
      PrePending(m, L, s1));
  }

  /** Moving one visited part from what is owed to what is output. */
  lemma Regroup<K>(out: seq<K>, k: seq<K>, a: seq<K>, b: seq<K>, rest: seq<K>)
    ensures out + (k + a + b + rest) == (out + k) + (a + (b + rest))
  {
  }

  /** What the in-order still owes for the pending stack: each node, then its right subtree. */
  ghost function InPending<K>(m: map<nat, Cell<K>>, L: Layout, stack: seq<nat>): seq<K>
    requires Wf(m, L) && forall k | 0 <= k < |stack| :: stack[k] in m
  {
    if |stack| == 0 then []
    else
      var top := stack[|stack| - 1];
      assert NodeOk(m, L, top);
      [m[top].key] + InOrder(View(m, L, m[top].right)) + InPending(m, L, stack[..|stack| - 1])
  }

  /**
   * `traverseInOrder`: go left pushing every node; at the end of a left
   * spine pop a node, visit it and continue with its right child.
   */
  method TraverseInOrder<K>(m: map<nat, Cell<K>>, root: Option<nat>, ghost L: Layout) returns (out: seq<K>)
    requires Shaped(m, root, L)
    ensures out == InOrder(View(m, L, root))
    ensures root.None? ==> out == []
  {
    out := [];
    var stack: seq<nat> := [];
    var node := root;
    ghost var goal := InOrder(View(m, L, root));
    while |stack| > 0 || node.Some?
      invariant node.Some? ==> node.value in m
      invariant forall k | 0 <= k < |stack| :: stack[k] in m
      invariant out + InOrder(View(m, L, node)) + InPending(m, L, stack) == goal
      decreases |goal| - |out|, Size(View(m, L, node))
    {
      if node.Some? {
        var n := node.value;
        InPush(m, L, stack, out, node, goal);
        stack := stack + [n];
        node := m[n].left;
      } else {
        var n := stack[|stack| - 1];
        InPop(m, L, stack, out, goal);
        stack := stack[..|stack| - 1];
        out := out + [m[n].key];
        node := m[n].right;
      }
    }
  }

  /** Pushing `node` and going left keeps what is visited plus what is owed, on a smaller subtree. */
  lemma InPush<K>(m: map<nat, Cell<K>>, L: Layout, stack: seq<nat>, out: seq<K>, node: Option<nat>, goal: seq<K>)
    requires Wf(m, L) && (forall k | 0 <= k < |stack| :: stack[k] in m) && node.Some? && node.value in m
    requires out + InOrder(View(m, L, node)) + InPending(m, L, stack) == goal
    ensures var n := node.value;
      && (m[n].left.Some? ==> m[n].left.value in m)
      && Size(View(m, L, m[n].left)) < Size(View(m, L, node))
      && out + InOrder(View(m, L, m[n].left)) + InPending(m, L, stack + [n]) == goal
  {
    var n := node.value;
    assert NodeOk(m, L, n);
    ChildrenSmaller(m, L, n);
    var a, b, rest := InOrder(View(m, L, m[n].left)), InOrder(View(m, L, m[n].right)), InPending(m, L, stack);
    assert (stack + [n])[..|stack|] == stack;
    assert InPending(m, L, stack + [n]) == [m[n].key] + b + rest;
    RegroupIn(out, a, [m[n].key], b, rest);
  }

  /** Popping and visiting the top, then going right, keeps what is visited plus what is owed. */
  lemma InPop<K>(m: map<nat, Cell<K>>, L: Layout, stack: seq<nat>, out: seq<K>, goal: seq<K>)
    requires Wf(m, L) && |stack| > 0 && (forall k | 0 <= k < |stack| :: stack[k] in m)
    requires out + InOrder(View(m, L, None)) + InPending(m, L, stack) == goal
    ensures var n := stack[|stack| - 1];
      && (m[n].right.Some? ==> m[n].right.value in m)
      && (out + [m[n].key]) + InOrder(View(m, L, m[n].right)) + InPending(m, L, stack[..|stack| - 1]) == goal
  {
    var n := stack[|stack| - 1];
    assert NodeOk(m, L, n);
    var b, rest := InOrder(View(m, L, m[n].right)), InPending(m, L, stack[..|stack| - 1]);
    assert InOrder(View(m, L, None)) == [];
    RegroupInPop(out, [m[n].key], b, rest);
  }

  /**
   * What the post-order still owes for the pending stack. An entry still in
   * its left phase owes its right subtree and itself; one whose right
   * subtree has been entered owes only itself.
   */
  ghost function PostPending<K>(m: map<nat, Cell<K>>, L: Layout, stack: seq<nat>, leftPhase: seq<bool>): seq<K>
    requires Wf(m, L) && |leftPhase| == |stack| && forall k | 0 <= k < |stack| :: stack[k] in m
  {
    if |stack| == 0 then []
    else
      var top := stack[|stack| - 1];
      assert NodeOk(m, L, top);
      (if leftPhase[|stack| - 1] then PostOrder(View(m, L, m[top].right)) else []) + [m[top].key]
        + PostPending(m, L, stack[..|stack| - 1], leftPhase[..|stack| - 1])
  }

  /** Steps left in the post-order loop: three per unentered node, two or one per stacked node. */
  ghost function PostSteps<K>(m: map<nat, Cell<K>>, L: Layout, stack: seq<nat>, leftPhase: seq<bool>): nat
    requires Wf(m, L) && |leftPhase| == |stack| && forall k | 0 <= k < |stack| :: stack[k] in m
  {
    if |stack| == 0 then 0
    else
      var top := stack[|stack| - 1];
      assert NodeOk(m, L, top);
      (if leftPhase[|stack| - 1] then 2 + 3 * Size(View(m, L, m[top].right)) else 1)
        + PostSteps(m, L, stack[..|stack| - 1], leftPhase[..|stack| - 1])
  }

  /** The stacked nodes form a path: each is the left or the right child of the one below, by its phase. */
  ghost predicate PostPath<K>(m: map<nat, Cell<K>>, stack: seq<nat>, leftPhase: seq<bool>)
    requires |leftPhase| == |stack| && forall k | 0 <= k < |stack| :: stack[k] in m
  {
    forall k | 0 <= k < |stack| - 1 ::
      (if leftPhase[k] then m[stack[k]].left else m[stack[k]].right) == Some(stack[k + 1])
  }

  /**
   * `traversePostOrder`: go left pushing every node; at the end of a left
   * spine, step into the right child of the top unless that child was the
   * node visited last, in which case the top is popped and visited.
   */
  method TraversePostOrder<K>(m: map<nat, Cell<K>>, root: Option<nat>, ghost L: Layout) returns (out: seq<K>)
    requires Shaped(m, root, L)
    ensures out == PostOrder(View(m, L, root))
    ensures root.None? ==> out == []
  {
    out := [];
    var stack: seq<nat> := [];
    ghost var leftPhase: seq<bool> := [];
    var node := root;
    var last: Option<nat> := None;
    ghost var goal := PostOrder(View(m, L, root));
    while |stack| > 0 || node.Some?
      invariant PostState(m, L, stack, leftPhase, node, last)
      invariant out + PostOrder(View(m, L, node)) + PostPending(m, L, stack, leftPhase) == goal
      decreases 3 * Size(View(m, L, node)) + PostSteps(m, L, stack, leftPhase)
    {
      if node.Some? {
        var n := node.value;
        PostStatePush(m, L, stack, leftPhase, node, last);
        PostPush(m, L, stack, leftPhase, n, out, goal);
        stack := stack + [n];
        leftPhase := leftPhase + [true];
        node := m[n].left;
      } else {
        var next := stack[|stack| - 1];
        if m[next].right.Some? && last != m[next].right {
          PostStateTurn(m, L, stack, leftPhase, last);
          PostTurn(m, L, stack, leftPhase, out, goal);
          leftPhase := leftPhase[|stack| - 1 := false];
          node := m[next].right;
        } else {
          PostStatePop(m, L, stack, leftPhase, last);
          PostPendingPop(m, L, stack, leftPhase);
          RegroupPop(out, PostOrder(View(m, L, None)), PostPending(m, L, stack, leftPhase), [m[next].key],
            PostPending(m, L, stack[..|stack| - 1], leftPhase[..|stack| - 1]), goal);
          PostPopSteps(m, L, stack, leftPhase);
          stack := stack[..|stack| - 1];
          leftPhase := leftPhase[..|leftPhase| - 1];
          out := out + [m[next].key];
          last := Some(next);
        }
      }
    }
  }

  /**
   * The shape of the post-order loop's state: the stacked nodes form a path,
   * the node about to be entered is the child the top's phase names, the
   * node visited last lies before everything still to come, and an entry in
   * its right phase has just had its right child visited.
   */
  ghost predicate PostState<K>(m: map<nat, Cell<K>>, L: Layout, stack: seq<nat>, leftPhase: seq<bool>,
                               node: Option<nat>, last: Option<nat>)
  {
    && Wf(m, L)
    && (node.Some? ==> node.value in m)
    && (last.Some? ==> last.value in m)
    && |leftPhase| == |stack| && (forall k | 0 <= k < |stack| :: stack[k] in m)
    && PostPath(m, stack, leftPhase)
    && (node.Some? && |stack| > 0 ==>
          (if leftPhase[|stack| - 1] then m[stack[|stack| - 1]].left else m[stack[|stack| - 1]].right) == node)
    && (node.Some? && last.Some? ==> L.pos[last.value] < L.at[node.value].lo)
    && (node.None? && |stack| > 0 && leftPhase[|stack| - 1] && last.Some? ==>
          L.pos[last.value] < L.pos[stack[|stack| - 1]])
    && (node.None? && |stack| > 0 && !leftPhase[|stack| - 1] ==>
          m[stack[|stack| - 1]].right.Some? && last == m[stack[|stack| - 1]].right)
  }

  /** Pushing the node about to be entered, in its left phase, and going left keeps the shape. */
  lemma PostStatePush<K>(m: map<nat, Cell<K>>, L: Layout, stack: seq<nat>, leftPhase: seq<bool>,
                         node: Option<nat>, last: Option<nat>)
    requires PostState(m, L, stack, leftPhase, node, last) && node.Some?
    ensures PostState(m, L, stack + [node.value], leftPhase + [true], m[node.value].left, last)
  {
    var n := node.value;
    assert NodeOk(m, L, n);
    var stack', phase' := stack + [n], leftPhase + [true];
    assert forall k | 0 <= k < |stack'| - 1 :: stack'[k + 1] == (stack + [n])[k + 1] && (k < |stack| - 1 ==> phase'[k] == leftPhase[k]);
    if m[n].left.Some? {
      assert NodeOk(m, L, m[n].left.value);
    }
  }

  /** Turning the top to its right phase, when its right child is still to come, keeps the shape. */
  lemma PostStateTurn<K>(m: map<nat, Cell<K>>, L: Layout, stack: seq<nat>, leftPhase: seq<bool>, last: Option<nat>)
    requires PostState(m, L, stack, leftPhase, None, last) && |stack| > 0
    requires m[stack[|stack| - 1]].right.Some? && last != m[stack[|stack| - 1]].right
    ensures leftPhase[|stack| - 1]
    ensures PostState(m, L, stack, leftPhase[|stack| - 1 := false], m[stack[|stack| - 1]].right, last)
  {
    var t := stack[|stack| - 1];
    assert NodeOk(m, L, t);
    assert NodeOk(m, L, m[t].right.value);
  }

  /** Popping the top, once its right child is absent or visited, keeps the shape with the top visited last. */
  lemma PostStatePop<K>(m: map<nat, Cell<K>>, L: Layout, stack: seq<nat>, leftPhase: seq<bool>, last: Option<nat>)
    requires PostState(m, L, stack, leftPhase, None, last) && |stack| > 0
    requires !(m[stack[|stack| - 1]].right.Some? && last != m[stack[|stack| - 1]].right)
    ensures leftPhase[|stack| - 1] ==> m[stack[|stack| - 1]].right.None?
    ensures PostState(m, L, stack[..|stack| - 1], leftPhase[..|stack| - 1], None, Some(stack[|stack| - 1]))
  {
    var c := stack[|stack| - 1];
    assert NodeOk(m, L, c);
    if m[c].right.Some? {
      assert NodeOk(m, L, m[c].right.value);
    }
    if |stack| > 1 {
      assert NodeOk(m, L, stack[|stack| - 2]);
    }
  }

  /** Pushing `n` in its left phase: its left subtree comes next, then what the entry owes. */
  lemma PostPush<K>(m: map<nat, Cell<K>>, L: Layout, stack: seq<nat>, leftPhase: seq<bool>, n: nat,
                    out: seq<K>, goal: seq<K>)
    requires Wf(m, L) && |leftPhase| == |stack| && (forall k | 0 <= k < |stack| :: stack[k] in m) && n in m
    requires out + PostOrder(View(m, L, Some(n))) + PostPending(m, L, stack, leftPhase) == goal
    ensures var stack', phase' := stack + [n], leftPhase + [true];
      && stack'[..|stack|] == stack && phase'[..|stack|] == leftPhase
      && (m[n].left.Some? ==> m[n].left.value in m)
      && out + PostOrder(View(m, L, m[n].left)) + PostPending(m, L, stack', phase') == goal
      && PostSteps(m, L, stack', phase') + 3 * Size(View(m, L, m[n].left)) < 3 * Size(View(m, L, Some(n))) + PostSteps(m, L, stack, leftPhase)
  {
    assert NodeOk(m, L, n);
    var stack', phase' := stack + [n], leftPhase + [true];
    assert stack'[..|stack|] == stack && phase'[..|stack|] == leftPhase;
    var a, b, rest := PostOrder(View(m, L, m[n].left)), PostOrder(View(m, L, m[n].right)), PostPending(m, L, stack, leftPhase);
    assert PostOrder(View(m, L, Some(n))) == a + b + [m[n].key];
    assert PostPending(m, L, stack', phase') == b + [m[n].key] + rest;
    RegroupPush(out, a, b, [m[n].key], rest);
  }

  /** Turning the top entry to its right phase: its right subtree comes next. */
  lemma PostTurn<K>(m: map<nat, Cell<K>>, L: Layout, stack: seq<nat>, leftPhase: seq<bool>, out: seq<K>, goal: seq<K>)
    requires Wf(m, L) && |leftPhase| == |stack| > 0 && (forall k | 0 <= k < |stack| :: stack[k] in m)
    requires leftPhase[|stack| - 1] && m[stack[|stack| - 1]].right.Some?
    requires out + PostOrder(View(m, L, None)) + PostPending(m, L, stack, leftPhase) == goal
    ensures var t := stack[|stack| - 1];
      && m[t].right.value in m
      && out + PostOrder(View(m, L, m[t].right)) + PostPending(m, L, stack, leftPhase[|stack| - 1 := false]) == goal
      && 3 * Size(View(m, L, m[t].right)) + PostSteps(m, L, stack, leftPhase[|stack| - 1 := false]) < PostSteps(m, L, stack, leftPhase)
  {
    var t := stack[|stack| - 1];
    assert NodeOk(m, L, t);
    var phase' := leftPhase[|stack| - 1 := false];
    assert phase'[..|stack| - 1] == leftPhase[..|stack| - 1];
    var b, rest := PostOrder(View(m, L, m[t].right)), PostPending(m, L, stack[..|stack| - 1], leftPhase[..|stack| - 1]);
    assert PostOrder(View(m, L, None)) == [];
    RegroupTurn(out, b, [m[t].key], rest);
  }

  /** An entry that owes only itself. */
  lemma PostPendingPop<K>(m: map<nat, Cell<K>>, L: Layout, stack: seq<nat>, leftPhase: seq<bool>)
    requires Wf(m, L) && |leftPhase| == |stack| > 0 && (forall k | 0 <= k < |stack| :: stack[k] in m)
    requires var t := stack[|stack| - 1]; leftPhase[|stack| - 1] ==> m[t].right.None?
    ensures PostOrder(View(m, L, None)) == []
    ensures PostPending(m, L, stack, leftPhase) == [] + [m[stack[|stack| - 1]].key] + PostPending(m, L, stack[..|stack| - 1], leftPhase[..|stack| - 1])
  {
  }

  /** Popping an entry leaves fewer steps. */
  lemma PostPopSteps<K>(m: map<nat, Cell<K>>, L: Layout, stack: seq<nat>, leftPhase: seq<bool>)
    requires Wf(m, L) && |leftPhase| == |stack| > 0 && (forall k | 0 <= k < |stack| :: stack[k] in m)
    ensures PostSteps(m, L, stack, leftPhase) > PostSteps(m, L, stack[..|stack| - 1], leftPhase[..|stack| - 1])
  {
  }

  /** The in-order's regrouping when a node is pushed. */
  lemma RegroupIn<K>(out: seq<K>, a: seq<K>, k: seq<K>, b: seq<K>, rest: seq<K>)
    ensures out + (a + k + b) + rest == out + a + (k + b + rest)
  {
  }

  /** The in-order's regrouping when a node is popped and visited. */
  lemma RegroupInPop<K>(out: seq<K>, k: seq<K>, b: seq<K>, rest: seq<K>)
    ensures out + [] + (k + b + rest) == (out + k) + b + rest
  {
  }

  /** The post-order's regrouping when a node is pushed. */
  lemma RegroupPush<K>(out: seq<K>, a: seq<K>, b: seq<K>, k: seq<K>, rest: seq<K>)
    ensures out + (a + b + k) + rest == out + a + (b + k + rest)
  {
  }

  /** The post-order's regrouping when the top turns right. */
  lemma RegroupTurn<K>(out: seq<K>, b: seq<K>, k: seq<K>, rest: seq<K>)
    ensures out + [] + (b + k + rest) == out + b + (k + rest)
  {
  }

  /** The post-order's regrouping when the top is popped and visited. */
  lemma RegroupPop<K>(out: seq<K>, none: seq<K>, owed: seq<K>, k: seq<K>, rest: seq<K>, goal: seq<K>)
    requires none == [] && owed == [] + k + rest && out + none + owed == goal
    ensures (out + k) + none + rest == goal
  {
  }
}
