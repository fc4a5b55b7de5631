/**
 * The array layout shared by both binary heaps. Slot `i` has parent
 * `floor(i / 2)` and children `2i` and `2i + 1`; slot 0 is its own parent
 * and its own left child, so its only proper child is slot 1. Heap order is
 * stated on the sequence of keys, slot by slot; each sift of the heaps is
 * proved here once, as a step lemma over that sequence.
 */
module HeapOrder {

  /** `getParent`: the slot above `i`. */
  function Parent(i: nat): (p: nat)
    ensures 2 * p <= i <= 2 * p + 1
    ensures i >= 1 ==> p < i
  {
    i / 2
  }

  /** `getLeft`: the first slot below `i`. */
  function Left(i: nat): (c: nat)
    ensures Parent(c) == i
  {
    2 * i
  }

  /** `getRight`: the second slot below `i`, right after `Left(i)`. */
  function Right(i: nat): (c: nat)
    ensures Parent(c) == i && c == Left(i) + 1
  {
    2 * i + 1
  }

  /** `swap`: the entries at slots `a` and `b` trade places. */
  function Swapped<T>(s: seq<T>, a: nat, b: nat): (r: seq<T>)
    requires a < |s| && b < |s|
    ensures |r| == |s| && r[a] == s[b] && r[b] == s[a]
    ensures forall k :: 0 <= k < |s| && k != a && k != b ==> r[k] == s[k]
    ensures multiset(r) == multiset(s)
  {
    s[a := s[b]][b := s[a]]
  }

  /**
   * Every slot whose parent is at `lo` or beyond holds a key no smaller than
   * its parent's; with `lo == 0` this is heap order.
   */
  ghost predicate OrderedFrom(s: seq<int>, lo: nat)
  {
    forall c :: 1 <= c < |s| && lo <= Parent(c) ==> s[Parent(c)] <= s[c]
  }

  /** Heap order: `s[floor(i/2)] <= s[i]` for `1 <= i < |s|`. */
  ghost predicate Ordered(s: seq<int>)
  {
    OrderedFrom(s, 0)
  }

  /** `v` is no larger than any key of `s`. */
  ghost predicate Below(v: int, s: seq<int>)
  {
    forall k :: 0 <= k < |s| ==> v <= s[k]
  }

  /**
   * The state during a sift-down from slot `j` restricted to the slots whose
   * parent is at `lo` or beyond: order holds everywhere except between `j`
   * and its children, and the children of `j` are no smaller than the
   * parent of `j`.
   */
  ghost predicate SinkingAt(s: seq<int>, lo: nat, j: nat)
  {
    && (forall c :: 1 <= c < |s| && lo <= Parent(c) && Parent(c) != j ==> s[Parent(c)] <= s[c])
    && (j >= 1 && lo <= Parent(j) && j < |s| ==>
          forall c :: 1 <= c < |s| && Parent(c) == j ==> s[Parent(j)] <= s[c])
  }

  /**
   * The state during a sift-up from slot `j`: order holds everywhere except
   * between `j` and its parent, and the children of `j` are no smaller than
   * the parent of `j`.
   */
  ghost predicate RisingAt(s: seq<int>, j: nat)
  {
    && (forall c :: 1 <= c < |s| && c != j ==> s[Parent(c)] <= s[c])
    && (j >= 1 && j < |s| ==> forall c :: 1 <= c < |s| && Parent(c) == j ==> s[Parent(j)] <= s[c])
  }

  /**
   * The state while a node is pulled up to the root regardless of its key:
   * order holds between every pair of slots not involving `j`, and the
   * children of `j` are no smaller than the parent of `j`.
   */
  ghost predicate DetachedAt(s: seq<int>, j: nat)
  {
    && (forall c :: 1 <= c < |s| && c != j && Parent(c) != j ==> s[Parent(c)] <= s[c])
    && (j >= 1 && j < |s| ==> forall c :: 1 <= c < |s| && Parent(c) == j ==> s[Parent(j)] <= s[c])
  }

  /** In heap order the root holds a smallest key. */
  lemma {:induction false} RootBelow(s: seq<int>, k: nat)
    requires Ordered(s) && k < |s|
    ensures s[0] <= s[k]
    decreases k
  {
    if k > 0 {
      RootBelow(s, Parent(k));
    }
  }

  /** The root of an ordered heap is below every key. */
  lemma RootIsMinimum(s: seq<int>)
    ensures Ordered(s) && |s| > 0 ==> Below(s[0], s)
  {
    if Ordered(s) && |s| > 0 {
      forall k | 0 <= k < |s| ensures s[0] <= s[k] {
        RootBelow(s, k);
      }
    }
  }

  /**
   * One step of `heapify`: swapping `j` with its smaller child `k`, which is
   * smaller than `j` itself, moves the sift-down to `k`.
   */
  lemma SinkStep(s: seq<int>, lo: nat, j: nat, k: nat)
    requires SinkingAt(s, lo, j) && lo <= j && k < |s| && j < |s|
    requires k != j && Parent(k) == j && s[k] < s[j]
    requires forall c :: 1 <= c < |s| && Parent(c) == j ==> s[k] <= s[c]
    ensures SinkingAt(Swapped(s, j, k), lo, k)
  {
    var t := Swapped(s, j, k);
    forall c | 1 <= c < |t| && lo <= Parent(c) && Parent(c) != k
      ensures t[Parent(c)] <= t[c]
    {
      if c == j {
        assert s[Parent(j)] <= s[k];
      } else if c == k {
      } else if Parent(c) == j {
      } else {
        assert c != k && Parent(c) != k && Parent(c) != j;
      }
    }
  }

  /** `heapify` stops once slot `j` is no larger than its children. */
  lemma SinkDone(s: seq<int>, lo: nat, j: nat)
    requires SinkingAt(s, lo, j)
    requires forall c :: 1 <= c < |s| && Parent(c) == j ==> s[j] <= s[c]
    ensures OrderedFrom(s, lo)
  {
  }

  /** One step of a sift-up: a slot smaller than its parent trades with it. */
  lemma RiseStep(s: seq<int>, j: nat)
    requires RisingAt(s, j) && 1 <= j < |s| && s[j] < s[Parent(j)]
    ensures RisingAt(Swapped(s, j, Parent(j)), Parent(j))
  {
    var p := Parent(j);
    var t := Swapped(s, j, p);
    forall c | 1 <= c < |t| && c != p ensures t[Parent(c)] <= t[c] {
      if c == j {
      } else if Parent(c) == p {
        assert s[p] <= s[c];
      } else if Parent(c) == j {
        assert s[p] <= s[c];
      } else {
        assert c != j && c != p && Parent(c) != p && Parent(c) != j;
      }
    }
    if p >= 1 {
      forall c | 1 <= c < |t| && Parent(c) == p ensures t[Parent(p)] <= t[c] {
        assert s[Parent(p)] <= s[p];
        if c != j {
          assert s[p] <= s[c];
        }
      }
    }
  }

  /** A sift-up stops at the root or below a parent that is not larger. */
  lemma RiseDone(s: seq<int>, j: nat)
    requires RisingAt(s, j) && j < |s|
    requires j == 0 || s[Parent(j)] <= s[j]
    ensures Ordered(s)
  {
  }

  /** A key pushed at the end of an ordered heap starts a sift-up there. */
  lemma RiseFromEnd(s: seq<int>, key: int)
    requires Ordered(s)
    ensures RisingAt(s + [key], |s|)
  {
    var t := s + [key];
    forall c | 1 <= c < |t| && c != |s| ensures t[Parent(c)] <= t[c] {
      assert t[c] == s[c] && t[Parent(c)] == s[Parent(c)];
    }
  }

  /** Lowering the key at slot `j` of an ordered heap starts a sift-up at `j`. */
  lemma RiseFromLowered(s: seq<int>, j: nat, key: int)
    requires Ordered(s) && j < |s| && key <= s[j]
    ensures RisingAt(s[j := key], j)
  {
    var t := s[j := key];
    forall c | 1 <= c < |t| && c != j ensures t[Parent(c)] <= t[c] {
      assert s[Parent(c)] <= s[c];
    }
    if j >= 1 {
      forall c | 1 <= c < |t| && Parent(c) == j ensures t[Parent(j)] <= t[c] {
        assert s[Parent(j)] <= s[j] <= s[c];
      }
    }
  }

  /** Every slot of an ordered heap may start to be pulled up to the root. */
  lemma DetachFrom(s: seq<int>, j: nat)
    requires Ordered(s)
    ensures DetachedAt(s, j)
  {
    if j >= 1 && j < |s| {
      forall c | 1 <= c < |s| && Parent(c) == j ensures s[Parent(j)] <= s[c] {
        assert s[Parent(j)] <= s[j];
      }
    }
  }

  /** Pulling slot `j` over its parent keeps the pairs that avoid it ordered. */
  lemma DetachStep(s: seq<int>, j: nat)
    requires DetachedAt(s, j) && 1 <= j < |s|
    ensures DetachedAt(Swapped(s, j, Parent(j)), Parent(j))
  {
    var p := Parent(j);
    var t := Swapped(s, j, p);
    forall c | 1 <= c < |t| && c != p && Parent(c) != p ensures t[Parent(c)] <= t[c] {
      if Parent(c) == j {
        assert s[p] <= s[c];
      } else {
        assert c != j;
      }
    }
    if p >= 1 {
      forall c | 1 <= c < |t| && Parent(c) == p ensures t[Parent(p)] <= t[c] {
        assert s[Parent(p)] <= s[p];
        if c != j {
          assert s[p] <= s[c];
        }
      }
    }
  }

  /** A node pulled all the way up leaves every pair below the root ordered. */
  lemma DetachedAtRoot(s: seq<int>)
    requires DetachedAt(s, 0)
    ensures OrderedFrom(s, 1)
  {
  }

  /**
   * Moving the last key into the root of a heap whose pairs below the root
   * are ordered starts a sift-down from the root.
   */
  lemma SinkFromRoot(s: seq<int>)
    requires OrderedFrom(s, 1) && |s| >= 2
    ensures SinkingAt(s[..|s| - 1][0 := s[|s| - 1]], 0, 0)
  {
    var t := s[..|s| - 1][0 := s[|s| - 1]];
    forall c | 1 <= c < |t| && Parent(c) != 0 ensures t[Parent(c)] <= t[c] {
      assert t[c] == s[c] && t[Parent(c)] == s[Parent(c)];
    }
  }

  /** Before the build loop no slot has a parent at `|s| / 2 + 1` or beyond. */
  lemma BuildStart(s: seq<int>)
    ensures OrderedFrom(s, |s| / 2 + 1)
  {
  }

  /** The build loop's `heapify(i)` may start once the slots beyond `i` are done. */
  lemma BuildStep(s: seq<int>, i: nat)
    requires OrderedFrom(s, i + 1)
    ensures SinkingAt(s, i, i)
  {
  }
}
