/**
 * The binomial heap of `lib/`: a list of root trees joined through
 * `sibling`, every node holding its children as a list that starts at
 * `child` and continues through the children's `sibling` links. Here a tree
 * is a value whose `children` keep that sibling order, the heap's root list
 * is the sequence `head`, and a child's `parent` is the node whose
 * `children` hold it, so a root never has one.
 *
 * A new node's `degree` is `undefined` and `linkTrees` increments it, so
 * the degrees the heap ever holds are `undefined` and `NaN`. With those,
 * every `<=` in `mergeHeaps` is false and `===` in `union` holds only
 * between two `undefined` degrees: the merge puts the other list first, and
 * only two lone nodes are ever linked. `Small` states the resulting shape.
 */
module LibBinomialHeap {
  import opened Common

  /** What a `degree` field can hold: `undefined`, `NaN` or a number. */
  datatype Degree = Undefined | NaN | Num(n: int)

  /** `d++`: `undefined` and `NaN` both become `NaN`. */
  function Bump(d: Degree): (r: Degree)
    ensures r.Num? <==> d.Num?
  {
    if d.Num? then Num(d.n + 1) else NaN
  }

  /** `a === b`: `undefined` is identical to itself, `NaN` to nothing. */
  predicate Identical(a: Degree, b: Degree)
  {
    (a == Undefined && b == Undefined) || (a.Num? && b.Num? && a.n == b.n)
  }

  /** `a <= b`: an operand that is not a number converts to `NaN`, and every comparison with `NaN` is false. */
  predicate AtMost(a: Degree, b: Degree)
  {
    a.Num? && b.Num? && a.n <= b.n
  }

  /** A node with its key, its value, its degree and its children in sibling order. */
  datatype Tree<V> = Node(key: int, value: V, degree: Degree, children: seq<Tree<V>>)

  /** The keys held in a tree. */
  ghost function TreeKeys<V>(t: Tree<V>): multiset<int>
    decreases t
  {
    multiset{t.key} + ForestKeys(t.children)
  }

  /** The keys held in a list of trees. */
  ghost function ForestKeys<V>(ts: seq<Tree<V>>): multiset<int>
    decreases ts
  {
    if ts == [] then multiset{} else TreeKeys(ts[0]) + ForestKeys(ts[1..])
  }

  /** Heap order: no child has a smaller key than its parent. */
  ghost predicate Ordered<V>(t: Tree<V>)
  {
    forall i :: 0 <= i < |t.children| ==> t.key <= t.children[i].key && Ordered(t.children[i])
  }

  /**
   * The only trees the heap builds: a lone node of `undefined` degree, or a
   * node of degree `NaN` with one such lone child.
   */
  ghost predicate Small<V>(t: Tree<V>)
  {
    || (t.degree == Undefined && t.children == [])
    || (t.degree == NaN && |t.children| == 1 && t.children[0].degree == Undefined && t.children[0].children == [])
  }

  ghost predicate AllOrdered<V>(ts: seq<Tree<V>>)
  {
    forall t | t in ts :: Ordered(t)
  }

  ghost predicate AllSmall<V>(ts: seq<Tree<V>>)
  {
    forall t | t in ts :: Small(t)
  }

  /** `linkTrees(p, c)`: `c` becomes the first child of `p`, whose degree is incremented. */
  function Link<V>(p: Tree<V>, c: Tree<V>): Tree<V>
  {
    Node(p.key, p.value, Bump(p.degree), [c] + p.children)
  }

  /** The root list `mergeHeaps(a, b)` builds: the next root of `a` goes first when its degree is `<=` that of `b`'s. */
  function Merge<V>(a: seq<Tree<V>>, b: seq<Tree<V>>): seq<Tree<V>>
    decreases |a| + |b|
  {
    if |a| == 0 then b
    else if |b| == 0 then a
    else if AtMost(a[0].degree, b[0].degree) then [a[0]] + Merge(a[1..], b)
    else [b[0]] + Merge(a, b[1..])
  }

  /**
   * The pass of `union` over the merged root list, from the root `curr` on:
   * `done` are the roots before it and `rest` the roots after it. Two
   * neighbours of identical degree, not followed by a third of that degree,
   * are linked under the one with the smaller key (`rest[0]` on ties).
   */
  function Combine<V>(done: seq<Tree<V>>, curr: Tree<V>, rest: seq<Tree<V>>): seq<Tree<V>>
    decreases |rest|
  {
    if |rest| == 0 then done + [curr]
    else
      var next := rest[0];
      if !Identical(curr.degree, next.degree) || (|rest| > 1 && Identical(rest[1].degree, curr.degree)) then
        Combine(done + [curr], next, rest[1..])
      else if Compare(curr.key, next.key) < 0 then
        Combine(done, Link(curr, next), rest[1..])
      else
        Combine(done, Link(next, curr), rest[1..])
  }

  /** The root list `a.union(b)` leaves in `a`. */
  function UnionOf<V>(a: seq<Tree<V>>, b: seq<Tree<V>>): seq<Tree<V>>
  {
    var s := Merge(a, b);
    if |s| == 0 then [] else Combine([], s[0], s[1..])
  }

  /** `s` in the opposite order. */
  function Reversed<T>(s: seq<T>): (r: seq<T>)
    ensures |r| == |s| && forall i :: 0 <= i < |s| ==> r[i] == s[|s| - 1 - i]
    decreases |s|
  {
    if |s| == 0 then [] else [s[|s| - 1]] + Reversed(s[..|s| - 1])
  }

  /** The root list left once root `m` of `s` is extracted: its children, reversed, are united with the other roots. */
  function Extracted<V>(s: seq<Tree<V>>, m: nat): seq<Tree<V>>
    requires m < |s|
  {
    UnionOf(s[..m] + s[m + 1..], Reversed(s[m].children))
  }

  /** The root `findMinimum` and `extractMinimum` settle on: the first one with a minimum key. */
  function FirstMin<V>(s: seq<Tree<V>>): (m: nat)
    requires |s| > 0
    ensures m < |s|
    ensures forall j :: 0 <= j < |s| ==> s[m].key <= s[j].key
    ensures forall j :: 0 <= j < m ==> s[m].key < s[j].key
    decreases |s|
  {
    if |s| == 1 then 0
    else
      var m := FirstMin(s[..|s| - 1]);
      if Compare(s[|s| - 1].key, s[m].key) < 0 then |s| - 1 else m
  }

  lemma Uncons<T>(s: seq<T>)
    requires |s| > 0
    ensures s == [s[0]] + s[1..]
  {
  }

  lemma Unsnoc<T>(s: seq<T>)
    requires |s| > 0
    ensures s == s[..|s| - 1] + [s[|s| - 1]]
  {
  }

  lemma SplitAt<T>(s: seq<T>, m: nat)
    requires m < |s|
    ensures s == s[..m] + ([s[m]] + s[m + 1..])
  {
  }

  lemma {:induction false} ForestAppend<V>(a: seq<Tree<V>>, b: seq<Tree<V>>)
    ensures ForestKeys(a + b) == ForestKeys(a) + ForestKeys(b)
    decreases |a|
  {
    if a == [] {
      assert a + b == b;
    } else {
      assert (a + b)[0] == a[0] && (a + b)[1..] == a[1..] + b;
      ForestAppend(a[1..], b);
    }
  }

  lemma ForestCons<V>(t: Tree<V>, s: seq<Tree<V>>)
    ensures ForestKeys([t] + s) == TreeKeys(t) + ForestKeys(s)
  {
    assert ([t] + s)[0] == t && ([t] + s)[1..] == s;
  }

  /** Only an empty list of trees holds no key. */
  lemma ForestEmpty<V>(ts: seq<Tree<V>>)
    ensures |ForestKeys(ts)| == 0 <==> ts == []
  {
    if ts != [] {
      assert ts[0].key in ForestKeys(ts);
    }
  }

  /** Linking keeps every key of both trees. */
  lemma LinkKeys<V>(p: Tree<V>, c: Tree<V>)
    ensures TreeKeys(Link(p, c)) == TreeKeys(p) + TreeKeys(c)
  {
    ForestCons(c, p.children);
  }

  /** Linking under the smaller key keeps heap order. */
  lemma LinkOrdered<V>(p: Tree<V>, c: Tree<V>)
    requires Ordered(p) && Ordered(c) && p.key <= c.key
    ensures Ordered(Link(p, c))
  {
    var r := Link(p, c);
    forall i | 0 <= i < |r.children|
      ensures r.key <= r.children[i].key && Ordered(r.children[i])
    {
      if i > 0 {
        assert r.children[i] == p.children[i - 1];
      }
    }
  }

  /** A small tree holds one or two keys. */
  lemma SmallKeys<V>(t: Tree<V>)
    requires Small(t)
    ensures 1 <= |TreeKeys(t)| <= 2
  {
    if t.children != [] {
      ForestCons(t.children[0], []);
      assert t.children == [t.children[0]] + [];
    }
  }

  /** Every key of an ordered tree is at least its root's. */
  lemma {:induction false} RootMinimal<V>(t: Tree<V>)
    requires Ordered(t)
    ensures forall k | k in TreeKeys(t) :: t.key <= k
    decreases t
  {
    ForestBelow(t.children, t.key);
  }

  lemma {:induction false} ForestBelow<V>(s: seq<Tree<V>>, b: int)
    requires forall i :: 0 <= i < |s| ==> b <= s[i].key && Ordered(s[i])
    ensures forall k | k in ForestKeys(s) :: b <= k
    decreases s
  {
    if s != [] {
      RootMinimal(s[0]);
      ForestBelow(s[1..], b);
    }
  }

  /** In a heap-ordered root list, the root `FirstMin` picks holds the least key of the heap. */
  lemma MinimumBelowAll<V>(s: seq<Tree<V>>)
    requires |s| > 0 && AllOrdered(s)
    ensures forall k | k in ForestKeys(s) :: s[FirstMin(s)].key <= k
  {
    ForestBelow(s, s[FirstMin(s)].key);
  }

  /** `mergeHeaps` loses and invents no root. */
  lemma {:induction false} MergeKeys<V>(a: seq<Tree<V>>, b: seq<Tree<V>>)
    ensures ForestKeys(Merge(a, b)) == ForestKeys(a) + ForestKeys(b)
    ensures forall t | t in Merge(a, b) :: t in a || t in b
    decreases |a| + |b|
  {
    if |a| == 0 || |b| == 0 {
    } else if AtMost(a[0].degree, b[0].degree) {
      MergeKeys(a[1..], b);
      ForestCons(a[0], Merge(a[1..], b));
      Uncons(a);
      ForestCons(a[0], a[1..]);
    } else {
      MergeKeys(a, b[1..]);
      ForestCons(b[0], Merge(a, b[1..]));
      Uncons(b);
      ForestCons(b[0], b[1..]);
    }
  }

  /** When no degree of `a` is a number, `mergeHeaps(a, b)` is `b`'s roots followed by `a`'s. */
  lemma {:induction false} MergeAppends<V>(a: seq<Tree<V>>, b: seq<Tree<V>>)
    requires forall t | t in a :: !t.degree.Num?
    ensures Merge(a, b) == b + a
    decreases |b|
  {
    if |a| == 0 {
      assert b + a == b;
    } else if |b| == 0 {
      assert b + a == a;
    } else {
      assert a[0] in a;
      MergeAppends(a, b[1..]);
      Uncons(b);
    }
  }

  lemma AppendOne<V>(done: seq<Tree<V>>, curr: Tree<V>)
    ensures ForestKeys(done + [curr]) == ForestKeys(done) + TreeKeys(curr)
  {
    ForestAppend(done, [curr]);
    ForestCons(curr, []);
  }

  lemma Shuffle(d: multiset<int>, c: multiset<int>, n: multiset<int>, r: multiset<int>)
    ensures (d + c) + n + r == d + c + (n + r)
    ensures d + (c + n) + r == d + c + (n + r)
    ensures d + (n + c) + r == d + c + (n + r)
  {
  }

  /** The pass of `union` keeps every key. */
  lemma {:induction false} CombineKeys<V>(done: seq<Tree<V>>, curr: Tree<V>, rest: seq<Tree<V>>)
    ensures ForestKeys(Combine(done, curr, rest)) == ForestKeys(done) + TreeKeys(curr) + ForestKeys(rest)
    decreases |rest|
  {
    if |rest| == 0 {
      AppendOne(done, curr);
    } else {
      var next := rest[0];
      Uncons(rest);
      ForestCons(next, rest[1..]);
      Shuffle(ForestKeys(done), TreeKeys(curr), TreeKeys(next), ForestKeys(rest[1..]));
      if !Identical(curr.degree, next.degree) || (|rest| > 1 && Identical(rest[1].degree, curr.degree)) {
        CombineKeys(done + [curr], next, rest[1..]);
        AppendOne(done, curr);
      } else if Compare(curr.key, next.key) < 0 {
        CombineKeys(done, Link(curr, next), rest[1..]);
        LinkKeys(curr, next);
      } else {
        CombineKeys(done, Link(next, curr), rest[1..]);
        LinkKeys(next, curr);
      }
    }
  }

  /** The pass of `union` keeps heap order: every link puts the smaller key on top. */
  lemma {:induction false} CombineOrdered<V>(done: seq<Tree<V>>, curr: Tree<V>, rest: seq<Tree<V>>)
    requires AllOrdered(done) && Ordered(curr) && AllOrdered(rest)
    ensures AllOrdered(Combine(done, curr, rest))
    decreases |rest|
  {
    if |rest| > 0 {
      var next := rest[0];
      assert next in rest;
      assert forall t | t in rest[1..] :: t in rest;
      if !Identical(curr.degree, next.degree) || (|rest| > 1 && Identical(rest[1].degree, curr.degree)) {
        CombineOrdered(done + [curr], next, rest[1..]);
      } else if Compare(curr.key, next.key) < 0 {
        LinkOrdered(curr, next);
        CombineOrdered(done, Link(curr, next), rest[1..]);
      } else {
        LinkOrdered(next, curr);
        CombineOrdered(done, Link(next, curr), rest[1..]);
      }
    }
  }

  /** The pass of `union` links only two lone nodes, so every tree stays small. */
  lemma {:induction false} CombineSmall<V>(done: seq<Tree<V>>, curr: Tree<V>, rest: seq<Tree<V>>)
    requires AllSmall(done) && Small(curr) && AllSmall(rest)
    ensures AllSmall(Combine(done, curr, rest))
    decreases |rest|
  {
    if |rest| > 0 {
      var next := rest[0];
      assert next in rest;
      assert forall t | t in rest[1..] :: t in rest;
      if !Identical(curr.degree, next.degree) || (|rest| > 1 && Identical(rest[1].degree, curr.degree)) {
        CombineSmall(done + [curr], next, rest[1..]);
      } else if Compare(curr.key, next.key) < 0 {
        CombineSmall(done, Link(curr, next), rest[1..]);
      } else {
        CombineSmall(done, Link(next, curr), rest[1..]);
      }
    }
  }

  /** `union` keeps the keys of both heaps. */
  lemma UnionKeys<V>(a: seq<Tree<V>>, b: seq<Tree<V>>)
    ensures ForestKeys(UnionOf(a, b)) == ForestKeys(a) + ForestKeys(b)
  {
    var s := Merge(a, b);
    MergeKeys(a, b);
    if |s| > 0 {
      CombineKeys([], s[0], s[1..]);
      Uncons(s);
      ForestCons(s[0], s[1..]);
    }
  }

  /** `union` of two heap-ordered root lists is heap-ordered. */
  lemma UnionOrdered<V>(a: seq<Tree<V>>, b: seq<Tree<V>>)
    requires AllOrdered(a) && AllOrdered(b)
    ensures AllOrdered(UnionOf(a, b))
  {
    var s := Merge(a, b);
    MergeKeys(a, b);
    if |s| > 0 {
      assert s[0] in s;
      assert forall t | t in s[1..] :: t in s;
      CombineOrdered([], s[0], s[1..]);
    }
  }

  /** `union` of two root lists of small trees holds only small trees. */
  lemma UnionSmall<V>(a: seq<Tree<V>>, b: seq<Tree<V>>)
    requires AllSmall(a) && AllSmall(b)
    ensures AllSmall(UnionOf(a, b))
  {
    var s := Merge(a, b);
    MergeKeys(a, b);
    if |s| > 0 {
      assert s[0] in s;
      assert forall t | t in s[1..] :: t in s;
      CombineSmall([], s[0], s[1..]);
    }
  }

  /** In a heap of small trees, `union` puts the other heap's roots first. */
  lemma UnionMergesAfter<V>(a: seq<Tree<V>>, b: seq<Tree<V>>)
    requires AllSmall(a)
    ensures Merge(a, b) == b + a
  {
    assert forall t | t in a :: Small(t);
    MergeAppends(a, b);
  }

  lemma {:induction false} ForestReversed<V>(s: seq<Tree<V>>)
    ensures ForestKeys(Reversed(s)) == ForestKeys(s)
    decreases |s|
  {
    if |s| > 0 {
      var n := |s| - 1;
      ForestReversed(s[..n]);
      ForestCons(s[n], Reversed(s[..n]));
      Unsnoc(s);
      AppendOne(s[..n], s[n]);
    }
  }

  lemma ReversedMembers<T>(s: seq<T>)
    ensures forall t | t in Reversed(s) :: t in s
  {
    var r := Reversed(s);
    forall t | t in r ensures t in s {
      var i :| 0 <= i < |r| && r[i] == t;
      assert s[|s| - 1 - i] == t;
    }
  }

  /** Extracting root `m` takes exactly its key out of the heap. */
  lemma ExtractedKeys<V>(s: seq<Tree<V>>, m: nat)
    requires m < |s|
    ensures ForestKeys(Extracted(s, m)) + multiset{s[m].key} == ForestKeys(s)
  {
    var others := s[..m] + s[m + 1..];
    UnionKeys(others, Reversed(s[m].children));
    ForestReversed(s[m].children);
    ForestAround(s, m);
  }

  /** The keys of `s` are those around index `m` and those of the tree at `m`. */
  lemma ForestAround<V>(s: seq<Tree<V>>, m: nat)
    requires m < |s|
    ensures ForestKeys(s) == ForestKeys(s[..m] + s[m + 1..]) + multiset{s[m].key} + ForestKeys(s[m].children)
  {
    ForestAppend(s[..m], s[m + 1..]);
    ForestSplit(s, m);
  }

  lemma ForestSplit<V>(s: seq<Tree<V>>, m: nat)
    requires m < |s|
    ensures ForestKeys(s) == ForestKeys(s[..m]) + (TreeKeys(s[m]) + ForestKeys(s[m + 1..]))
  {
    SplitAt(s, m);
    ForestCons(s[m], s[m + 1..]);
    ForestAppend(s[..m], [s[m]] + s[m + 1..]);
  }

  /** Extracting a root keeps heap order. */
  lemma ExtractedOrdered<V>(s: seq<Tree<V>>, m: nat)
    requires m < |s| && AllOrdered(s)
    ensures AllOrdered(Extracted(s, m))
  {
    var t := s[m];
    assert t in s;
    ReversedMembers(t.children);
    forall c | c in Reversed(t.children) ensures Ordered(c) {
      var i :| 0 <= i < |t.children| && t.children[i] == c;
    }
    assert forall u | u in s[..m] + s[m + 1..] :: u in s;
    UnionOrdered(s[..m] + s[m + 1..], Reversed(t.children));
  }

  /** Extracting a root keeps every tree small. */
  lemma ExtractedSmall<V>(s: seq<Tree<V>>, m: nat)
    requires m < |s| && AllSmall(s)
    ensures AllSmall(Extracted(s, m))
  {
    var t := s[m];
    assert t in s;
    ReversedMembers(t.children);
    assert forall u | u in s[..m] + s[m + 1..] :: u in s;
    UnionSmall(s[..m] + s[m + 1..], Reversed(t.children));
  }

  lemma Regroup<T>(r: seq<T>, x: T, s: seq<T>)
    ensures r + ([x] + s) == (r + [x]) + s
  {
  }

  /** One step of `Merge` on the lists from `a[i]` and `b[j]` on. */
  lemma MergeStep<V>(a: seq<Tree<V>>, b: seq<Tree<V>>, i: nat, j: nat)
    requires i < |a| && j < |b|
    ensures Merge(a[i..], b[j..]) ==
      if AtMost(a[i].degree, b[j].degree) then [a[i]] + Merge(a[i + 1..], b[j..]) else [b[j]] + Merge(a[i..], b[j + 1..])
  {
    assert a[i..][1..] == a[i + 1..] && b[j..][1..] == b[j + 1..];
  }

  /** What extracting root `m` keeps of a valid heap: the order, the shapes, and every other key. */
  lemma Extraction<V>(s: seq<Tree<V>>, m: nat)
    requires m < |s|
    ensures ForestKeys(Extracted(s, m)) + multiset{s[m].key} == ForestKeys(s)
    ensures |ForestKeys(Extracted(s, m))| + 1 == |ForestKeys(s)|
    ensures AllOrdered(s) ==> AllOrdered(Extracted(s, m))
    ensures AllSmall(s) ==> AllSmall(Extracted(s, m))
  {
    ExtractedKeys(s, m);
    if AllOrdered(s) {
      ExtractedOrdered(s, m);
    }
    if AllSmall(s) {
      ExtractedSmall(s, m);
    }
  }

  /** One more root scanned: the minimum moves to it only when its key is smaller. */
  lemma FirstMinStep<V>(s: seq<Tree<V>>, k: nat)
    requires 1 <= k < |s|
    ensures FirstMin(s[..k + 1]) == if Compare(s[k].key, s[FirstMin(s[..k])].key) < 0 then k else FirstMin(s[..k])
  {
    assert s[..k + 1][..k] == s[..k];
  }

  /** `mergeHeaps(a, b)` on the root lists of two heaps. */
  method MergeHeaps<V>(a: seq<Tree<V>>, b: seq<Tree<V>>) returns (r: seq<Tree<V>>)
    ensures r == Merge(a, b)
  {
    if |a| == 0 {
      return b;
    } else if |b| == 0 {
      return a;
    }
    var i, j := 0, 0;
    if AtMost(a[0].degree, b[0].degree) {
      r := [a[0]];
      i := 1;
    } else {
      r := [b[0]];
      j := 1;
    }
    assert a[0..] == a && b[0..] == b;
    MergeStep(a, b, 0, 0);
    // `r` runs from `head` to `tail`; `i` and `j` stand for `aNext` and `bNext`.
    while i < |a| && j < |b|
      invariant 0 <= i <= |a| && 0 <= j <= |b|
      invariant r + Merge(a[i..], b[j..]) == Merge(a, b)
      decreases |a| - i + |b| - j
    {
      MergeStep(a, b, i, j);
      if AtMost(a[i].degree, b[j].degree) {
        Regroup(r, a[i], Merge(a[i + 1..], b[j..]));
        r := r + [a[i]];
        i := i + 1;
      } else {
        Regroup(r, b[j], Merge(a[i..], b[j + 1..]));
        r := r + [b[j]];
        j := j + 1;
      }
    }
    r := r + (if i < |a| then a[i..] else b[j..]);
  }

  /**
   * A binomial heap: the root list `head` (empty for `undefined`) and the
   * `nodeCount` the operations keep.
   */
  class BinomialHeap<V> {
    var head: seq<Tree<V>>
    var nodeCount: int

    /** A heap reached through its own operations: heap-ordered small trees, counted exactly. */
    ghost predicate Valid()
      reads this
    {
      AllOrdered(head) && AllSmall(head) && nodeCount == |ForestKeys(head)|
    }

    constructor ()
      ensures head == [] && nodeCount == 0 && Valid()
    {
      head := [];
      nodeCount := 0;
    }

    /** `clear()`. */
    method Clear()
      modifies this
      ensures head == [] && nodeCount == 0 && Valid()
    {
      head := [];
      nodeCount := 0;
    }

    /** `isEmpty()`: no root; in a valid heap, exactly when nothing is counted. */
    function IsEmpty(): (r: bool)
      reads this
      ensures r <==> head == []
      ensures Valid() ==> (r <==> nodeCount == 0)
    {
      ForestEmpty(head);
      |head| == 0
    }

    /** `size()`: in a valid heap, the number of keys held. */
    function Size(): (r: int)
      reads this
      ensures Valid() ==> r == |ForestKeys(head)|
    {
      nodeCount
    }

    /** `findMinimum()`: the first root with a minimum key, which changes nothing. */
    method FindMinimum() returns (r: Option<Tree<V>>)
      ensures head == [] ==> r == None
      ensures head != [] ==> r == Some(head[FirstMin(head)])
    {
      if |head| == 0 {
        return None;
      }
      var min := 0;
      var k := 1;
      while k < |head|
        invariant 1 <= k <= |head| && min == FirstMin(head[..k])
      {
        FirstMinStep(head, k);
        if Compare(head[k].key, head[min].key) < 0 {
          min := k;
        }
        k := k + 1;
      }
      assert head[..k] == head;
      r := Some(head[min]);
    }

    /**
     * `union(heap)`: the merged root lists, with neighbours of identical
     * degree linked, become this heap's; the other heap loses its roots but
     * keeps its count.
     */
    method Union(heap: BinomialHeap<V>)
      requires heap != this
      modifies this, heap
      ensures nodeCount == old(nodeCount) + old(heap.nodeCount)
      ensures heap.head == [] && heap.nodeCount == old(heap.nodeCount)
      ensures head == UnionOf(old(head), old(heap.head))
      ensures ForestKeys(head) == old(ForestKeys(head)) + old(ForestKeys(heap.head))
      ensures old(Valid()) && old(heap.Valid()) ==> Valid()
    {
      ghost var a, b := head, heap.head;
      UnionKeys(a, b);
      if AllOrdered(a) && AllOrdered(b) {
        UnionOrdered(a, b);
      }
      if AllSmall(a) && AllSmall(b) {
        UnionSmall(a, b);
      }
      nodeCount := nodeCount + heap.nodeCount;
      var newHead := MergeHeaps(head, heap.head);
      head := [];
      heap.head := [];
      if |newHead| == 0 {
        return;
      }
      // `done` runs from `newHead` to `prev`; `rest` starts at `next`.
      var done: seq<Tree<V>> := [];
      var curr := newHead[0];
      var rest := newHead[1..];
      while |rest| > 0
        invariant Combine(done, curr, rest) == UnionOf(a, b)
        decreases |rest|
      {
        var next := rest[0];
        if !Identical(curr.degree, next.degree) || (|rest| > 1 && Identical(rest[1].degree, curr.degree)) {
          done := done + [curr];
          curr := next;
        } else if Compare(curr.key, next.key) < 0 {
          curr := Link(curr, next);
        } else {
          curr := Link(next, curr);
        }
        rest := rest[1..];
      }
      head := done + [curr];
    }

    /** `insert(key, value)`: a lone node is united with the heap and returned. */
    method Insert(key: int, value: V) returns (node: Tree<V>)
      modifies this
      ensures node == Node(key, value, Undefined, [])
      ensures nodeCount == old(nodeCount) + 1 && head == UnionOf(old(head), [node])
      ensures ForestKeys(head) == old(ForestKeys(head)) + multiset{key}
      ensures old(Valid()) ==> Valid()
    {
      var tempHeap := new BinomialHeap<V>();
      node := Node(key, value, Undefined, []);
      tempHeap.head := [node];
      tempHeap.nodeCount := tempHeap.nodeCount + 1;
      ForestCons(node, []);
      Union(tempHeap);
    }

    /**
     * `removeTreeRoot(this, root, prev)` for the root at index `m`: the root
     * leaves the root list, and its children, reversed and without parent,
     * form a heap of count zero that is united with this one.
     */
    method RemoveTreeRoot(m: nat)
      requires m < |head|
      modifies this
      ensures nodeCount == old(nodeCount) && head == Extracted(old(head), m)
    {
      var root := head[m];
      ghost var s := head;
      if m == 0 {
        head := head[1..];
      } else {
        head := head[..m] + head[m + 1..];
      }
      assert head == s[..m] + s[m + 1..];
      var newHead: seq<Tree<V>> := [];
      var k := 0;
      while k < |root.children|
        invariant 0 <= k <= |root.children| && newHead == Reversed(root.children[..k])
        modifies {}
      {
        assert root.children[..k + 1][..k] == root.children[..k];
        newHead := [root.children[k]] + newHead;
        k := k + 1;
      }
      assert root.children[..k] == root.children;
      var newHeap := new BinomialHeap<V>();
      newHeap.head := newHead;
      Union(newHeap);
    }

    /**
     * `extractMinimum()`: nothing on an empty heap; otherwise the first root
     * with a minimum key, which leaves the heap, and one node less counted.
     */
    method ExtractMinimum() returns (r: Option<Tree<V>>)
      modifies this
      ensures old(head) == [] ==> r == None && head == old(head) && nodeCount == old(nodeCount)
      ensures old(head) != [] ==> var m := FirstMin(old(head));
        && r == Some(old(head)[m]) && nodeCount == old(nodeCount) - 1
        && head == Extracted(old(head), m)
        && ForestKeys(head) + multiset{r.value.key} == old(ForestKeys(head))
      ensures old(Valid()) ==> Valid()
    {
      if |head| == 0 {
        return None;
      }
      var min := 0;
      var k := 1;
      while k < |head|
        invariant 1 <= k <= |head| && min == FirstMin(head[..k])
        modifies {}
      {
        FirstMinStep(head, k);
        if Compare(head[k].key, head[min].key) < 0 {
          min := k;
        }
        k := k + 1;
      }
      assert head[..k] == head;
      Extraction(head, min);
      var node := head[min];
      RemoveTreeRoot(min);
      nodeCount := nodeCount - 1;
      r := Some(node);
    }
  }
}
