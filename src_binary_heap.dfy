/**
 * The self-contained binary heap of `src/`: a min-heap of raw keys kept in
 * one array, `list`, in the layout of `HeapOrder`. Every comparison uses the
 * module-level three-way compare; a comparator handed to the constructor is
 * stored by the source but never called, so the model's constructor takes
 * none.
 */
module SrcBinaryHeap {
  import opened Common
  import opened HeapOrder

  class BinaryHeap {
    var list: seq<int>

    /** Heap order over the array. */
    ghost predicate Valid()
      reads this
    {
      Ordered(list)
    }

    constructor ()
      ensures Valid() && list == []
    {
      list := [];
    }

    /** `isEmpty`: nothing is stored exactly when the size is zero. */
    function IsEmpty(): (b: bool)
      reads this
      ensures b <==> Size() == 0
      ensures b <==> multiset(list) == multiset{}
    {
      |list| == 0
    }

    /** `size`: the number of stored keys. */
    function Size(): (n: nat)
      reads this
      ensures n == |multiset(list)|
    {
      |list|
    }

    /**
     * `findMinimum`: undefined on an empty heap, otherwise the root, which
     * in heap order is below every stored key.
     */
    function FindMinimum(): (r: Option<int>)
      reads this
      ensures r.None? <==> IsEmpty()
      ensures r.Some? ==> r.value in multiset(list)
      ensures r.Some? && Valid() ==> Below(r.value, list)
    {
      RootIsMinimum(list);
      if IsEmpty() then None else Some(list[0])
    }

    /**
     * `heapify(i)`: sift the key at `i` down by swapping it with its
     * smaller child while that child is smaller. Only swaps, so the stored
     * keys are kept; the slots whose parent is at `lo` or beyond end up in
     * order when only `i` was out of place among them.
     */
    method Heapify(i: nat, ghost lo: nat)
      requires lo <= i && SinkingAt(list, lo, i)
      modifies this
      ensures |list| == |old(list)| && multiset(list) == multiset(old(list))
      ensures OrderedFrom(list, lo)
      decreases |list| - i
    {
      var l := Left(i);
      var r := Right(i);
      var smallest := i;
      if l < |list| && Compare(list[l], list[i]) < 0 {
        smallest := l;
      }
      if r < |list| && Compare(list[r], list[smallest]) < 0 {
        smallest := r;
      }
      if smallest != i {
        SinkStep(list, lo, i, smallest);
        list := Swapped(list, i, smallest);
        Heapify(smallest, lo);
      } else {
        SinkDone(list, lo, i);
      }
    }

    /** `insert`: push the key and sift it up to restore heap order. */
    method Insert(key: int)
      requires Valid()
      modifies this
      ensures Valid()
      ensures multiset(list) == multiset(old(list)) + multiset{key}
    {
      var i: nat := |list|;
      RiseFromEnd(list, key);
      list := list + [key];
      var parent := Parent(i);
      while parent != i && Compare(list[i], list[parent]) < 0
        invariant i < |list| && parent == Parent(i)
        invariant RisingAt(list, i)
        invariant multiset(list) == multiset(old(list)) + multiset{key}
        decreases i
      {
        RiseStep(list, i);
        list := Swapped(list, i, parent);
        i := parent;
        parent := Parent(i);
      }
      RiseDone(list, i);
    }

    /**
     * `extractMinimum`: undefined on an empty heap; with one key, that key,
     * leaving the heap empty; otherwise the root, replaced by the last key,
     * which is sifted down. The key returned is below every key stored before.
     */
    method ExtractMinimum() returns (r: Option<int>)
      requires Valid()
      modifies this
      ensures Valid()
      ensures r.None? <==> old(list) == []
      ensures r.None? ==> list == []
      ensures r.Some? ==> r.value == old(list[0]) && Below(r.value, old(list))
      ensures r.Some? ==> multiset(list) == multiset(old(list)) - multiset{r.value}
      ensures |old(list)| == 1 ==> list == []
    {
      RootIsMinimum(list);
      if |list| == 0 {
        return None;
      }
      if |list| == 1 {
        r := Some(list[0]);
        list := [];
        return;
      }
      r := Some(list[0]);
      var n := |list|;
      SinkFromRoot(list);
      MultisetDelete(list, n - 1);
      MultisetReplace(list[..n - 1], 0, list[n - 1]);
      list := list[..n - 1][0 := list[n - 1]];
      Heapify(0, 0);
    }
  }
}
