/**
 * The binary heap of `lib/`: a min-heap of node handles kept in one array,
 * `list`, in the layout of `HeapOrder`. Each node carries its key, its value
 * and the slot `i` it believes it sits at; `swap` rewrites the slots of the
 * two nodes it moves, and `decreaseKey` and `delete` find a node through
 * that slot. Handles are objects: `union` appends the other heap's nodes
 * without renumbering them and leaves the other heap's array as it was, so
 * the two heaps then share those nodes.
 *
 * The ghost `entries` pairs every slot's node with its key; each operation
 * is tied to the `HeapSift` function that moves the entries the same way,
 * and what the sifts achieve is proved there.
 */
module LibBinaryHeap {
  import opened Common
  import opened HeapOrder
  import opened HeapSift

  /** A heap entry. The value is never reassigned after construction. */
  class Node<V> {
    var key: int
    const value: V
    var i: nat

    constructor (key: int, value: V, i: nat)
      ensures this.key == key && this.value == value && this.i == i
    {
      this.key := key;
      this.value := value;
      this.i := i;
    }
  }

  /** The outcome of an operation that may throw: the thrown message. */
  datatype Outcome = Ok | Throws(message: string)

  const NonexistentNode := "Cannot decrease key of non-existent node"
  const KeyIncrease := "New key is larger than old key"
  const LengthMismatch := "Key array must be the same length as value array"

  /** Every node's slot index is its position in `s`. */
  ghost predicate Indexed<V>(s: seq<Node<V>>)
    reads s
  {
    forall k {:trigger s[k]} :: 0 <= k < |s| ==> s[k].i == k
  }

  /** `e` pairs every node of `s`, all of them in `R`, with its current key. */
  ghost predicate Entered<V>(s: seq<Node<V>>, e: seq<(int, Node<V>)>, R: set<Node<V>>)
    reads R
  {
    |s| == |e| && forall k {:trigger s[k]} :: 0 <= k < |s| ==> s[k] in R && e[k] == (s[k].key, s[k])
  }

  /** The key-value pair an entry stands for. */
  function PairOf<V>(x: (int, Node<V>)): (p: (int, V))
  {
    (x.0, x.1.value)
  }

  /** The key-value pairs of entries, slot by slot. */
  function Pairs<V>(e: seq<(int, Node<V>)>): (ps: seq<(int, V)>)
  {
    Map(PairOf, e)
  }

  /** The pairs `(keys[k], values[k])`, in order. */
  function Zip<V>(keys: seq<int>, values: seq<V>): (ps: seq<(int, V)>)
    requires |keys| == |values|
    ensures |ps| == |keys| && forall k :: 0 <= k < |keys| ==> ps[k] == (keys[k], values[k])
  {
    seq(|keys|, k requires 0 <= k < |keys| => (keys[k], values[k]))
  }

  /** Entries that lost their first one to a permutation lost its pair. */
  lemma ContentsAfterExtract<V>(e': seq<(int, Node<V>)>, e: seq<(int, Node<V>)>)
    requires |e| > 0 && multiset(e') == multiset(e) - multiset{e[0]}
    ensures multiset(Pairs(e')) == multiset(Pairs(e)) - multiset{PairOf(e[0])}
  {
    assert e == [e[0]] + e[1..];
    MapPermute(PairOf, e', e[1..]);
    assert Pairs(e) == [PairOf(e[0])] + Pairs(e[1..]);
  }

  /** Entries that gained one to a permutation gained its pair. */
  lemma ContentsAfterInsert<V>(e': seq<(int, Node<V>)>, e: seq<(int, Node<V>)>, x: (int, Node<V>))
    requires multiset(e') == multiset(e) + multiset{x}
    ensures multiset(Pairs(e')) == multiset(Pairs(e)) + multiset{PairOf(x)}
  {
    MapPermute(PairOf, e', e + [x]);
    MapAppend(PairOf, e, [x]);
    assert Pairs([x]) == [PairOf(x)];
  }

  /** Where `decreaseKey` leaves the entries: one lowered, then sifted up. */
  lemma LoweredHeap<T>(e: seq<(int, T)>, j: nat, x: (int, T), r: seq<(int, T)>)
    requires j < |e| && x.0 <= e[j].0 && r == SiftUp(e[j := x], j)
    ensures multiset(r) == multiset(e) - multiset{e[j]} + multiset{x}
    ensures Ordered(KeysOf(e)) ==> Ordered(KeysOf(r))
  {
    SiftUpKeeps(e[j := x], j);
    MultisetReplace(e, j, x);
    if Ordered(KeysOf(e)) {
      LowerSorts(e, j, x);
    }
  }

  class BinaryHeap<V> {
    var list: seq<Node<V>>
    ghost var entries: seq<(int, Node<V>)>
    ghost var Repr: set<Node<V>>

    /** `entries` describes the array, and every node sits in `Repr`. */
    ghost predicate Coupled()
      reads this, Repr
    {
      Entered(list, entries, Repr)
    }

    /** Heap order over the keys of the array. */
    ghost predicate Valid()
      reads this, Repr
    {
      Coupled() && Ordered(KeysOf(entries))
    }

    /** Every node knows its slot: what `decreaseKey` and `delete` rely on. */
    ghost predicate Linked()
      reads this, Repr
    {
      Coupled() && Indexed(list)
    }

    /** The stored key-value pairs. */
    ghost function Contents(): multiset<(int, V)>
      reads this
    {
      multiset(Pairs(entries))
    }

    constructor ()
      ensures Valid() && Linked() && entries == []
    {
      list := [];
      entries := [];
      Repr := {};
    }

    /** `isEmpty`: nothing is stored exactly when the size is zero. */
    function IsEmpty(): (b: bool)
      reads this
      ensures b <==> Size() == 0
      ensures Coupled() ==> (b <==> entries == [])
    {
      |list| == 0
    }

    /** `size`: the number of stored nodes. */
    function Size(): (n: nat)
      reads this
      ensures n == |list|
      ensures Coupled() ==> n == |Contents()|
    {
      |list|
    }

    /**
     * `findMinimum`: undefined on an empty heap, otherwise the root node,
     * whose key in heap order is below every stored key.
     */
    function FindMinimum(): (r: Node?<V>)
      reads this, Repr
      ensures r == null <==> IsEmpty()
      ensures r != null && Coupled() ==> (r.key, r) in multiset(entries)
      ensures r != null && Valid() ==> Below(r.key, KeysOf(entries))
    {
      RootIsMinimum(KeysOf(entries));
      if IsEmpty() then null else list[0]
    }

    /** `clear`: empty the array. */
    method Clear()
      modifies this
      ensures Valid() && Linked() && entries == []
    {
      list := [];
      entries := [];
      Repr := {};
    }

    /** The node at slot `k`. */
    function NodeAt(k: nat): Node<V>
      requires k < |list|
      reads this
    {
      list[k]
    }

    /**
     * `swap`: the nodes at `a` and `b` trade slots and are told their new
     * slots; nothing else changes.
     */
    method Swap(a: nat, b: nat)
      requires a < |list| && b < |list| && Coupled()
      modifies this`list, this`entries, NodeAt(a)`i, NodeAt(b)`i
      ensures list == Swapped(old(list), a, b) && entries == Swapped(old(entries), a, b)
      ensures Coupled()
      ensures list[b].i == b && (list[a] != list[b] ==> list[a].i == a)
      ensures old(Indexed(list)) ==> Indexed(list)
    {
      var temp := list[a];
      list := list[a := list[b]];
      list := list[b := temp];
      entries := Swapped(entries, a, b);
      list[a].i := a;
      list[b].i := b;
    }

    /**
     * `heapify(heap, i)`: sift the node at `i` down by swapping it with its
     * smaller child while that child is smaller.
     */
    method Heapify(i: nat)
      requires Coupled()
      modifies this`list, this`entries, Repr`i
      ensures entries == SinkDown(old(entries), i)
      ensures Coupled() && (old(Indexed(list)) ==> Indexed(list))
      decreases |list| - i
    {
      var l := Left(i);
      var r := Right(i);
      var smallest := i;
      if l < |list| && Compare(list[l].key, list[i].key) < 0 {
        smallest := l;
      }
      if r < |list| && Compare(list[r].key, list[smallest].key) < 0 {
        smallest := r;
      }
      assert smallest == Smallest(entries, i);
      if smallest != i {
        Swap(i, smallest);
        Heapify(smallest);
      }
    }

    /**
     * `buildHeapFromNodeArray(heap, nodeArray)`: adopt the array and heapify
     * every slot from `floor(n / 2)` down to 0; the old contents are dropped.
     * The entries end up as `BuildDown` computes them: by `BuildSorts`, in
     * heap order and a permutation of the given entries.
     */
    method BuildFrom(nodeArray: seq<Node<V>>, ghost e: seq<(int, Node<V>)>)
      requires Entered(nodeArray, e, Repr)
      modifies this`list, this`entries, Repr`i
      ensures entries == BuildDown(e, |e| / 2) && Coupled()
      ensures Ordered(KeysOf(entries)) && multiset(entries) == multiset(e)
      ensures old(Indexed(nodeArray)) ==> Indexed(list)
    {
      ghost var linked := Indexed(nodeArray);
      list := nodeArray;
      entries := e;
      var i: int := |list| / 2;
      ghost var target := BuildDown(e, |e| / 2);
      while i >= 0
        invariant -1 <= i <= |list| / 2 && Coupled()
        invariant linked ==> Indexed(list)
        invariant BuildDown(entries, i) == target
        decreases i
      {
        Heapify(i);
        i := i - 1;
      }
      BuildSorts(e);
    }

    /**
     * `buildHeap`: throws when the arrays differ in length, touching
     * nothing; otherwise replaces the contents by one fresh node per pair,
     * created at its index, and heapifies them.
     */
    method BuildHeap(keys: seq<int>, values: seq<V>) returns (r: Outcome)
      modifies this
      ensures |keys| != |values| ==> r == Throws(LengthMismatch) && unchanged(this)
      ensures |keys| == |values| ==> r == Ok && Valid() && Linked()
      ensures |keys| == |values| ==> Contents() == multiset(Zip(keys, values))
      ensures |keys| == |values| ==> forall n | n in Repr :: fresh(n)
    {
      if |keys| != |values| {
        r := Throws(LengthMismatch);
      } else {
        Repr := {};
        var nodeArray: seq<Node<V>> := [];
        ghost var e: seq<(int, Node<V>)> := [];
        for i := 0 to |keys|
          invariant Entered(nodeArray, e, Repr) && |nodeArray| == i && Indexed(nodeArray)
          invariant Pairs(e) == Zip(keys[..i], values[..i])
          invariant forall n | n in Repr :: fresh(n)
        {
          var node := new Node(keys[i], values[i], i);
          nodeArray := nodeArray + [node];
          ghost var x: (int, Node<V>) := (keys[i], node);
          assert Pairs(e + [x]) == Zip(keys[..i + 1], values[..i + 1]) by {
            MapAppend(PairOf, e, [x]);
            assert Pairs([x]) == [(keys[i], values[i])];
            assert keys[..i + 1] == keys[..i] + [keys[i]] && values[..i + 1] == values[..i] + [values[i]];
          }
          e := e + [x];
          Repr := Repr + {node};
        }
        assert Pairs(e) == Zip(keys, values) by {
          assert keys[..|keys|] == keys && values[..|values|] == values;
        }
        BuildFrom(nodeArray, e);
        assert multiset(Pairs(entries)) == multiset(Pairs(e)) by {
          MapPermute(PairOf, entries, e);
        }
        r := Ok;
      }
    }

    /**
     * `insert`: push a fresh node carrying the key and value at the end and
     * swap it up while its parent's key is larger. The node returned is the
     * one now stored; heap order is kept.
     */
    method Insert(key: int, value: V) returns (node: Node<V>)
      requires Coupled()
      modifies this, Repr`i
      ensures fresh(node) && node.key == key && node.value == value
      ensures entries == SiftUp(old(entries) + [(key, node)], |old(entries)|)
      ensures Coupled() && multiset(entries) == multiset(old(entries)) + multiset{(key, node)}
      ensures Contents() == old(Contents()) + multiset{(key, value)}
      ensures old(Ordered(KeysOf(entries))) ==> Ordered(KeysOf(entries))
      ensures old(Indexed(list)) ==> Indexed(list)
    {
      var i: nat := |list|;
      ghost var linked := Indexed(list);
      node := new Node(key, value, i);
      ghost var e := entries;
      ghost var x: (int, Node<V>) := (key, node);
      list := list + [node];
      entries := entries + [x];
      Repr := Repr + {node};
      var parent := Parent(i);
      while parent != i && Compare(list[i].key, list[parent].key) < 0
        invariant i < |list| && parent == Parent(i) && Coupled()
        invariant SiftUp(entries, i) == SiftUp(e + [x], |e|)
        invariant linked ==> Indexed(list)
        invariant node.key == key && Repr == old(Repr) + {node}
        decreases i
      {
        Swap(i, parent);
        i := parent;
        parent := Parent(i);
      }
      assert entries == SiftUp(e + [x], |e|);
      assert multiset(entries) == multiset(e) + multiset{x} by {
        SiftUpKeeps(e + [x], |e|);
      }
      assert multiset(Pairs(entries)) == multiset(Pairs(e)) + multiset{(key, value)} by {
        ContentsAfterInsert(entries, e, x);
      }
      assert Ordered(KeysOf(e)) ==> Ordered(KeysOf(entries)) by {
        if Ordered(KeysOf(e)) {
          InsertSorts(e, x);
        }
      }
    }

    /**
     * The tail of `extractMinimum` for two or more nodes: the last node is
     * popped into the root slot, renumbered 0, and sifted down.
     */
    method ReplaceRoot()
      requires Coupled() && |list| >= 2
      modifies this`list, this`entries, Repr`i
      ensures entries == Extracted(old(entries)) && Coupled()
      ensures old(Indexed(list)) ==> Indexed(list)
    {
      ghost var e := entries;
      var n := |list|;
      ghost var s := list;
      ghost var linked := Indexed(list);
      var last := list[n - 1];
      list := list[..n - 1];
      list := list[0 := last];
      entries := e[..n - 1][0 := e[n - 1]];
      last.i := 0;
      assert linked ==> Indexed(list) by {
        if linked {
          forall k | 1 <= k < |list| ensures list[k].i == k {
            assert list[k] == s[k] && old(s[k].i) == k && s[k] != last;
          }
        }
      }
      ghost var start := entries;
      assert Coupled() && start == e[..n - 1][0 := e[n - 1]];
      Heapify(0);
      assert entries == SinkDown(start, 0);
    }

    /**
     * `extractMinimum`: undefined on an empty heap; with one node, that
     * node, leaving the heap empty; otherwise the root, replaced by the last
     * node, which is told slot 0 and sifted down. Heap order below the root
     * (the state `delete` leaves) is enough for heap order after it; in a
     * heap in order the key returned is below every key kept.
     */
    method ExtractMinimum() returns (r: Node?<V>)
      requires Coupled()
      modifies this`list, this`entries, Repr`i
      ensures r == null <==> old(entries) == []
      ensures r != null ==> (r.key, r) == old(entries[0])
      ensures entries == Extracted(old(entries)) && Coupled()
      ensures r != null ==> multiset(entries) == multiset(old(entries)) - multiset{old(entries[0])}
      ensures r != null ==> Contents() == old(Contents()) - multiset{PairOf(old(entries[0]))}
      ensures old(OrderedFrom(KeysOf(entries), 1)) ==> Ordered(KeysOf(entries))
      ensures r != null && old(Ordered(KeysOf(entries))) ==> Below(old(entries[0]).0, KeysOf(entries))
      ensures old(Indexed(list)) ==> Indexed(list)
    {
      ghost var e := entries;
      if |list| == 0 {
        r := null;
      } else if |list| == 1 {
        r := list[0];
        list := [];
        entries := [];
      } else {
        r := list[0];
        ghost var top := e[0];
        assert top == (r.key, r) && r in Repr;
        ReplaceRoot();
        assert top == (r.key, r);
      }
      assert entries == Extracted(e);
      assert e != [] ==> multiset(entries) == multiset(e) - multiset{e[0]} by {
        if e != [] {
          ExtractKeeps(e);
        }
      }
      assert e != [] ==> multiset(Pairs(entries)) == multiset(Pairs(e)) - multiset{PairOf(e[0])} by {
        if e != [] {
          ContentsAfterExtract(entries, e);
        }
      }
      assert e != [] && OrderedFrom(KeysOf(e), 1) ==> Ordered(KeysOf(entries)) by {
        if e != [] && OrderedFrom(KeysOf(e), 1) {
          ExtractSorts(e);
        }
      }
      assert e != [] && Ordered(KeysOf(e)) ==> Below(e[0].0, KeysOf(entries)) by {
        if e != [] && Ordered(KeysOf(e)) {
          ExtractSorts(e);
        }
      }
    }

    /**
     * `decreaseKey`: throws, before any change, for a missing node or a key
     * larger than the node's; otherwise sets the key and swaps the node up
     * while its parent's key is larger, keeping heap order.
     */
    method DecreaseKey(node: Node?<V>, newKey: int) returns (r: Outcome)
      requires Linked()
      requires node != null ==> node in list
      modifies this`list, this`entries, Repr
      ensures node == null ==> r == Throws(NonexistentNode)
      ensures node != null && newKey > old(node.key) ==> r == Throws(KeyIncrease)
      ensures r.Throws? ==> list == old(list) && entries == old(entries) && unchanged(Repr)
      ensures r == Ok <==> node != null && newKey <= old(node.key)
      ensures r == Ok ==> node.key == newKey && Linked()
      ensures r == Ok ==> entries == SiftUp(old(entries)[old(node.i) := (newKey, node)], old(node.i))
      ensures r == Ok ==>
        multiset(entries) == multiset(old(entries)) - multiset{(old(node.key), node)} + multiset{(newKey, node)}
      ensures r == Ok && old(Ordered(KeysOf(entries))) ==> Ordered(KeysOf(entries))
    {
      if node == null {
        r := Throws(NonexistentNode);
      } else if Compare(newKey, node.key) > 0 {
        r := Throws(KeyIncrease);
      } else {
        ghost var e := entries;
        ghost var j := node.i;
        assert list[j] == node && e[j] == (node.key, node);
        node.key := newKey;
        ghost var x: (int, Node<V>) := (newKey, node);
        ghost var start := e[j := x];
        entries := start;
        var parent := Parent(node.i);
        while Compare(node.key, list[parent].key) < 0
          invariant node.i < |list| && list[node.i] == node && parent == Parent(node.i)
          invariant Coupled() && Indexed(list) && node.key == newKey
          invariant SiftUp(entries, node.i) == SiftUp(start, j)
          decreases node.i
        {
          Swap(node.i, parent);
          parent := Parent(node.i);
        }
        assert entries == SiftUp(start, j);
        LoweredHeap(e, j, x, entries);
        r := Ok;
      }
    }

    /**
     * `delete`: pull the node up to the root regardless of its key, then
     * extract the root. Exactly that node leaves, and heap order is kept.
     */
    method Delete(node: Node<V>)
      requires Linked() && node in list
      modifies this`list, this`entries, Repr`i
      ensures entries == Deleted(old(entries), old(node.i)) && Linked()
      ensures multiset(entries) == multiset(old(entries)) - multiset{(old(node.key), node)}
      ensures old(Ordered(KeysOf(entries))) ==> Ordered(KeysOf(entries))
    {
      ghost var e := entries;
      ghost var j := node.i;
      assert list[j] == node;
      while node.i > 0
        invariant node.i < |list| && list[node.i] == node && Coupled() && Indexed(list)
        invariant PullUp(entries, node.i) == PullUp(e, j)
        decreases node.i
      {
        var parent := Parent(node.i);
        Swap(node.i, parent);
      }
      assert entries == PullUp(e, j);
      ghost var pulled := entries;
      assert pulled[0] == (node.key, node) && multiset(pulled) == multiset(e) by {
        PullUpKeeps(e, j);
      }
      assert Ordered(KeysOf(e)) ==> OrderedFrom(KeysOf(pulled), 1) by {
        if Ordered(KeysOf(e)) {
          DetachFrom(KeysOf(e), j);
          PullUpDetaches(e, j);
        }
      }
      var _ := ExtractMinimum();
    }

    /**
     * `union`: rebuild from this array followed by the other heap's, without
     * renumbering; the other heap keeps its array, and the two share nodes.
     */
    method Union(other: BinaryHeap<V>)
      requires Coupled() && other.Coupled()
      modifies this, Repr`i, other.Repr`i
      ensures entries == BuildDown(old(entries + other.entries), |old(entries + other.entries)| / 2)
      ensures Valid() && multiset(entries) == multiset(old(entries)) + multiset(old(other.entries))
      ensures other != this ==> other.list == old(other.list) && other.entries == old(other.entries)
    {
      var joined := list + other.list;
      ghost var e := entries + other.entries;
      Repr := Repr + other.Repr;
      BuildFrom(joined, e);
    }
  }
}
