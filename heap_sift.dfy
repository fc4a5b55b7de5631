/**
 * The sifts of the node-handle binary heap as functions on its entries: a
 * sequence of (key, payload) pairs, slot by slot. Each function makes the
 * same comparisons and the same swaps, in the same order, as the loop or
 * recursion it mirrors; the lemmas below prove what those sifts achieve.
 */
module HeapSift {
  import opened Common
  import opened HeapOrder

  /** The keys of the entries, slot by slot. */
  function KeysOf<T>(e: seq<(int, T)>): (ks: seq<int>)
    ensures |ks| == |e| && forall k :: 0 <= k < |e| ==> ks[k] == e[k].0
  {
    seq(|e|, k requires 0 <= k < |e| => e[k].0)
  }

  /** Swapping two entries swaps their keys. */
  lemma KeysOfSwapped<T>(e: seq<(int, T)>, a: nat, b: nat)
    requires a < |e| && b < |e|
    ensures KeysOf(Swapped(e, a, b)) == Swapped(KeysOf(e), a, b)
  {
  }

  /** Appending an entry appends its key. */
  lemma KeysOfAppend<T>(e: seq<(int, T)>, x: (int, T))
    ensures KeysOf(e + [x]) == KeysOf(e) + [x.0]
  {
  }

  /** Replacing an entry replaces its key. */
  lemma KeysOfUpdate<T>(e: seq<(int, T)>, j: nat, x: (int, T))
    requires j < |e|
    ensures KeysOf(e[j := x]) == KeysOf(e)[j := x.0]
  {
  }

  /** Moving the last entry into the root moves its key. */
  lemma KeysOfLastToRoot<T>(e: seq<(int, T)>)
    requires |e| >= 2
    ensures KeysOf(e[..|e| - 1][0 := e[|e| - 1]]) == KeysOf(e)[..|e| - 1][0 := KeysOf(e)[|e| - 1]]
  {
  }

  /** The slot `heapify(i)` swaps with: the smallest of `i` and its children. */
  function Smallest<T>(e: seq<(int, T)>, i: nat): (m: nat)
    ensures m == i || (m < |e| && Parent(m) == i && m != i && i < |e| && e[m].0 < e[i].0)
    ensures m < |e| ==> forall c :: 1 <= c < |e| && Parent(c) == i ==> e[m].0 <= e[c].0
  {
    var l := Left(i);
    var r := Right(i);
    var s := if l < |e| && e[l].0 < e[i].0 then l else i;
    if r < |e| && e[r].0 < e[s].0 then r else s
  }

  /** `heapify(i)`: sift the entry at `i` down while a child is smaller. */
  function SinkDown<T>(e: seq<(int, T)>, i: nat): (r: seq<(int, T)>)
    ensures |r| == |e|
    decreases |e| - i
  {
    var m := Smallest(e, i);
    if m != i then SinkDown(Swapped(e, i, m), m) else e
  }

  /** The sift-up of `insert` and `decreaseKey`: swap with the parent while it is larger. */
  function SiftUp<T>(e: seq<(int, T)>, i: nat): (r: seq<(int, T)>)
    requires i < |e|
    ensures |r| == |e|
    decreases i
  {
    if Parent(i) != i && e[i].0 < e[Parent(i)].0 then SiftUp(Swapped(e, i, Parent(i)), Parent(i)) else e
  }

  /** The loop of `delete`: swap with the parent until slot 0 is reached. */
  function PullUp<T>(e: seq<(int, T)>, i: nat): (r: seq<(int, T)>)
    requires i < |e|
    ensures |r| == |e|
    decreases i
  {
    if i > 0 then PullUp(Swapped(e, i, Parent(i)), Parent(i)) else e
  }

  /**
   * The loop of `buildHeapFromNodeArray`: `heapify` every slot from `i` down
   * to 0; below slot 0 nothing is left to do.
   */
  function BuildDown<T>(e: seq<(int, T)>, i: int): (r: seq<(int, T)>)
    ensures |r| == |e|
    decreases i + 1
  {
    if i < 0 then e else BuildDown(SinkDown(e, i), i - 1)
  }

  /** `heapify` only swaps entries. */
  lemma {:induction false} SinkDownKeeps<T>(e: seq<(int, T)>, i: nat)
    ensures multiset(SinkDown(e, i)) == multiset(e)
    decreases |e| - i
  {
    var m := Smallest(e, i);
    if m != i {
      SinkDownKeeps(Swapped(e, i, m), m);
    }
  }

  /** The sift-up only swaps entries. */
  lemma {:induction false} SiftUpKeeps<T>(e: seq<(int, T)>, i: nat)
    requires i < |e|
    ensures multiset(SiftUp(e, i)) == multiset(e)
    decreases i
  {
    if Parent(i) != i && e[i].0 < e[Parent(i)].0 {
      SiftUpKeeps(Swapped(e, i, Parent(i)), Parent(i));
    }
  }

  /** Pulling an entry up only swaps entries, and brings that entry to slot 0. */
  lemma {:induction false} PullUpKeeps<T>(e: seq<(int, T)>, i: nat)
    requires i < |e|
    ensures multiset(PullUp(e, i)) == multiset(e)
    ensures PullUp(e, i)[0] == e[i]
    decreases i
  {
    if i > 0 {
      PullUpKeeps(Swapped(e, i, Parent(i)), Parent(i));
    }
  }

  /** The build loop only swaps entries. */
  lemma {:induction false} BuildDownKeeps<T>(e: seq<(int, T)>, i: int)
    ensures multiset(BuildDown(e, i)) == multiset(e)
    decreases i + 1
  {
    if i >= 0 {
      SinkDownKeeps(e, i);
      BuildDownKeeps(SinkDown(e, i), i - 1);
    }
  }

  /** `heapify` leaves ordered the slots it was asked to mend. */
  lemma {:induction false} SinkDownSorts<T>(e: seq<(int, T)>, lo: nat, i: nat)
    requires lo <= i && SinkingAt(KeysOf(e), lo, i)
    ensures OrderedFrom(KeysOf(SinkDown(e, i)), lo)
    decreases |e| - i
  {
    var m := Smallest(e, i);
    if m != i {
      KeysOfSwapped(e, i, m);
      SinkStep(KeysOf(e), lo, i, m);
      SinkDownSorts(Swapped(e, i, m), lo, m);
    } else {
      SinkDone(KeysOf(e), lo, i);
    }
  }

  /** The sift-up restores heap order. */
  lemma {:induction false} SiftUpSorts<T>(e: seq<(int, T)>, i: nat)
    requires i < |e| && RisingAt(KeysOf(e), i)
    ensures Ordered(KeysOf(SiftUp(e, i)))
    decreases i
  {
    if Parent(i) != i && e[i].0 < e[Parent(i)].0 {
      KeysOfSwapped(e, i, Parent(i));
      RiseStep(KeysOf(e), i);
      SiftUpSorts(Swapped(e, i, Parent(i)), Parent(i));
    } else {
      RiseDone(KeysOf(e), i);
    }
  }

  /** Pulling an entry up keeps ordered every pair below the root. */
  lemma {:induction false} PullUpDetaches<T>(e: seq<(int, T)>, i: nat)
    requires i < |e| && DetachedAt(KeysOf(e), i)
    ensures OrderedFrom(KeysOf(PullUp(e, i)), 1)
    decreases i
  {
    if i > 0 {
      KeysOfSwapped(e, i, Parent(i));
      DetachStep(KeysOf(e), i);
      PullUpDetaches(Swapped(e, i, Parent(i)), Parent(i));
    } else {
      DetachedAtRoot(KeysOf(e));
    }
  }

  /** Heapifying every slot from `i` down to 0 yields heap order. */
  lemma {:induction false} BuildDownSorts<T>(e: seq<(int, T)>, i: int)
    requires i >= -1 && OrderedFrom(KeysOf(e), i + 1)
    ensures Ordered(KeysOf(BuildDown(e, i)))
    decreases i + 1
  {
    if i >= 0 {
      BuildStep(KeysOf(e), i);
      SinkDownSorts(e, i, i);
      var e' := SinkDown(e, i);
      assert OrderedFrom(KeysOf(e'), (i - 1) + 1);
      BuildDownSorts(e', i - 1);
    }
  }

  /** The whole build loop, from `floor(n / 2)`, turns any entries into a heap. */
  lemma BuildSorts<T>(e: seq<(int, T)>)
    ensures multiset(BuildDown(e, |e| / 2)) == multiset(e)
    ensures Ordered(KeysOf(BuildDown(e, |e| / 2)))
  {
    BuildDownKeeps(e, |e| / 2);
    BuildStart(KeysOf(e));
    BuildDownSorts(e, |e| / 2);
  }

  /** What `extractMinimum` leaves: the last entry moved to the root and sifted down. */
  function Extracted<T>(e: seq<(int, T)>): (r: seq<(int, T)>)
    ensures |r| == if |e| == 0 then 0 else |e| - 1
  {
    if |e| <= 1 then [] else SinkDown(e[..|e| - 1][0 := e[|e| - 1]], 0)
  }

  /** What `delete` leaves: the entry at `j` pulled up to the root, then extracted. */
  function Deleted<T>(e: seq<(int, T)>, j: nat): (r: seq<(int, T)>)
    requires j < |e|
    ensures |r| == |e| - 1
  {
    Extracted(PullUp(e, j))
  }

  /** A bound below every key of some entries bounds every permutation of them. */
  lemma BelowPermuted<T>(v: int, a: seq<(int, T)>, b: seq<(int, T)>)
    requires multiset(a) == multiset(b) && Below(v, KeysOf(a))
    ensures Below(v, KeysOf(b))
  {
    forall k | 0 <= k < |b| ensures v <= KeysOf(b)[k] {
      assert b[k] in multiset(a);
      var j :| 0 <= j < |a| && a[j] == b[k];
      assert KeysOf(a)[j] == b[k].0;
    }
  }

  /** The sift-up of `insert` restores heap order around the entry pushed. */
  lemma InsertSorts<T>(e: seq<(int, T)>, x: (int, T))
    requires Ordered(KeysOf(e))
    ensures multiset(SiftUp(e + [x], |e|)) == multiset(e) + multiset{x}
    ensures Ordered(KeysOf(SiftUp(e + [x], |e|)))
  {
    RiseFromEnd(KeysOf(e), x.0);
    KeysOfAppend(e, x);
    SiftUpSorts(e + [x], |e|);
    SiftUpKeeps(e + [x], |e|);
  }

  /** The sift-up of `decreaseKey` restores heap order around the entry lowered. */
  lemma LowerSorts<T>(e: seq<(int, T)>, j: nat, x: (int, T))
    requires Ordered(KeysOf(e)) && j < |e| && x.0 <= e[j].0
    ensures multiset(SiftUp(e[j := x], j)) == multiset(e) - multiset{e[j]} + multiset{x}
    ensures Ordered(KeysOf(SiftUp(e[j := x], j)))
  {
    RiseFromLowered(KeysOf(e), j, x.0);
    KeysOfUpdate(e, j, x);
    SiftUpSorts(e[j := x], j);
    SiftUpKeeps(e[j := x], j);
    MultisetReplace(e, j, x);
  }

  /** Extracting removes exactly the root entry. */
  lemma ExtractKeeps<T>(e: seq<(int, T)>)
    requires |e| > 0
    ensures multiset(Extracted(e)) == multiset(e) - multiset{e[0]}
  {
    var n := |e|;
    if n == 1 {
      assert e == [e[0]];
    } else {
      var t := e[..n - 1][0 := e[n - 1]];
      SinkDownKeeps(t, 0);
      MultisetDelete(e, n - 1);
      assert e[..n - 1] == e[..n - 1] + e[n..];
      MultisetReplace(e[..n - 1], 0, e[n - 1]);
    }
  }

  /**
   * Extracting from entries ordered below the root removes exactly the root,
   * leaves heap order, and from a heap in order the root's key is below
   * every key left.
   */
  lemma ExtractSorts<T>(e: seq<(int, T)>)
    requires |e| > 0 && OrderedFrom(KeysOf(e), 1)
    ensures multiset(Extracted(e)) == multiset(e) - multiset{e[0]}
    ensures Ordered(KeysOf(Extracted(e)))
    ensures Ordered(KeysOf(e)) ==> Below(e[0].0, KeysOf(Extracted(e)))
  {
    ExtractKeeps(e);
    var n := |e|;
    if n >= 2 {
      var t := e[..n - 1][0 := e[n - 1]];
      SinkFromRoot(KeysOf(e));
      KeysOfLastToRoot(e);
      SinkDownSorts(t, 0, 0);
      if Ordered(KeysOf(e)) {
        ExtractBelow(e);
      }
    }
  }

  /** The root of a heap in order is below every key moved by an extract. */
  lemma ExtractBelow<T>(e: seq<(int, T)>)
    requires |e| >= 2 && Ordered(KeysOf(e))
    ensures Below(e[0].0, KeysOf(Extracted(e)))
  {
    var n := |e|;
    var t := e[..n - 1][0 := e[n - 1]];
    RootIsMinimum(KeysOf(e));
    forall k | 0 <= k < |t| ensures e[0].0 <= KeysOf(t)[k] {
      assert k == 0 || t[k] == e[k];
    }
    SinkDownKeeps(t, 0);
    BelowPermuted(e[0].0, t, SinkDown(t, 0));
  }

  /** Deleting the entry at `j` removes exactly it and leaves heap order. */
  lemma DeleteSorts<T>(e: seq<(int, T)>, j: nat)
    requires Ordered(KeysOf(e)) && j < |e|
    ensures multiset(Deleted(e, j)) == multiset(e) - multiset{e[j]}
    ensures Ordered(KeysOf(Deleted(e, j)))
  {
    DetachFrom(KeysOf(e), j);
    PullUpDetaches(e, j);
    PullUpKeeps(e, j);
    ExtractSorts(PullUp(e, j));
  }
}
