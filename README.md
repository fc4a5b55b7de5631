# js-data-structures in Dafny

A model of the heaps and search trees of the JavaScript library
js-data-structures, with proofs about what each operation does.

- The trees all share two things. Each keeps its nodes in an arena
  `map<nat, Cell<K>>`, indexed by node identity, beside a `root` and a
  `nodeCount`; each `Cell` holds the node fields `key`, `left`, `right` and
  `parent`. A ghost layout records the in-order of the nodes and the span
  of every subtree in it, so `Contents()` is the in-order key sequence.
  The trees are:
  - the search tree of `lib/binary-search-tree.js`, where deleting a node
    with two children copies the key of the node that `findParentOfMinimum`
    leads to;
  - the search tree of `src/binary-search-tree.js`. Its `remove` throws a
    `TypeError` on several shapes; the model returns `Threw` there, with
    the state the source leaves at the throw.
  - the splay tree of `lib/splay-tree.js` and `src/splay-tree.js`. The two
    files are the same algorithm, so one class models both.
  - the red-black tree of `lib/red-black-tree.js` and
    `lib/red-black-tree-node.js`. A nil sentinel is a node whose key is
    `None`, and every `getLeft`/`getRight` on a missing child creates one;
    `Contents()` drops the sentinels.
- The three stack traversals of `lib/base-binary-tree.js` (also copied into
  the `src/` trees) are proved equal to recursive pre-, in- and post-order
  definitions over a value view of the tree.
- The binary heaps use the library's array layout. Slot `i` has parent
  `floor(i / 2)` and children `2i` and `2i + 1`, so slot 0 is its own left
  child. Heap order and every sift are proved once over key sequences, in
  `HeapOrder` and `HeapSift`.
  - `lib/binary-heap.js` stores node objects that know their slot. Its
    ghost `entries` are tied to the `HeapSift` functions.
  - `src/binary-heap.js` stores raw keys.
- The binomial heap of `lib/binomial-heap.js` is a root list of value trees.
  A node's `degree` starts `undefined` and `linkTrees` increments it. So
  the degrees are `undefined` or `NaN`, every `<=` on them is false, and
  `===` holds only between two `undefined`s. The model carries exactly
  these semantics (`Degree`, `Bump`, `Identical`, `AtMost`).
  - Expected consequences: `union` puts the other heap's roots first and
    only ever links two lone nodes. `UnionMergesAfter` and `UnionSmall`
    prove it.

Where the source deviates from a textbook structure, the model follows the
source:
- `lib/binary-search-tree.js` takes the key of the left child when the right
  child of a two-children node has no left child. So order is only
  guaranteed under `Plain`.
- The red-black `insertFixup` right branch blackens the grandparent, not
  the parent, on a red uncle (lib/red-black-tree.js:100).
- `contains` on a red-black tree emptied down to a nil root answers true.
- `src/binary-heap.js` never calls the comparator it stores.

## Model

| member | source | states |
|---|---|---|
| Common.Compare | lib/binary-search-tree.js:154-162 | the three-way `compare`: 1, -1 or 0 exactly when `a > b`, `a < b` or `a == b` |
| Common.AscendingDelete | lib/binary-search-tree.js:164-195 | taking one key out of a strictly ascending in-order keeps it ascending |
| Common.AscendingInsert | lib/binary-search-tree.js:32-61 | entering a key between a smaller and a larger neighbour keeps the in-order ascending |
| Common.OverwriteByDeleted | lib/binary-search-tree.js:188-194 | writing the deleted successor's key over the node's slot removes exactly the node's key from the multiset |
| Common.OverwriteByNext | lib/binary-search-tree.js:188-194 | when the successor's slot is the next one, the overwrite leaves the in-order without the node's slot |
| HeapOrder.Parent | lib/binary-heap.js:223-225 | `getParent(i) = floor(i/2)`: `2p <= i <= 2p+1`, and it is strictly smaller for `i >= 1` |
| HeapOrder.Left | lib/binary-heap.js:227-229 | `getLeft(i) = 2i`, whose parent is `i` |
| HeapOrder.Right | lib/binary-heap.js:231-233 | `getRight(i) = 2i+1`, right after the left slot, whose parent is `i` |
| HeapOrder.Swapped | lib/binary-heap.js:215-221 | `swap`: the two slots trade entries, every other slot is unchanged, the multiset is kept |
| HeapOrder.RootBelow | lib/binary-heap.js:123-125 | in heap order the root key is at most any key (induction over the parent chain) |
| HeapOrder.RootIsMinimum | lib/binary-heap.js:123-125 | an ordered non-empty heap's root is below every key |
| HeapOrder.SinkStep | lib/binary-heap.js:188-204 | one swap of `heapify` with the smallest child moves the only disorder one level down |
| HeapOrder.SinkDone | lib/binary-heap.js:200 | when no child is smaller, `heapify` leaves the mended slots ordered |
| HeapOrder.RiseStep | lib/binary-heap.js:139-143 | one swap of the sift-up with a larger parent moves the only disorder one level up |
| HeapOrder.RiseDone | lib/binary-heap.js:139 | when the parent is not larger (or the slot is 0), the sift-up has restored heap order |
| HeapOrder.RiseFromEnd | lib/binary-heap.js:134-138 | pushing a key at the end of an ordered heap leaves only that slot out of place |
| HeapOrder.RiseFromLowered | lib/binary-heap.js:75-77 | lowering one key of an ordered heap leaves only that slot out of place |
| HeapOrder.DetachFrom | lib/binary-heap.js:88-93 | the start of `delete`'s pull-up: an ordered heap is ordered apart from the slot being pulled up |
| HeapOrder.DetachStep | lib/binary-heap.js:90-92 | one unconditional swap with the parent keeps that invariant one level up |
| HeapOrder.DetachedAtRoot | lib/binary-heap.js:94 | once the node reaches slot 0, every slot below the root is ordered |
| HeapOrder.SinkFromRoot | lib/binary-heap.js:110-113 | moving the last key to the root of an ordered heap leaves only the root out of place |
| HeapOrder.BuildStart | lib/binary-heap.js:210 | every slot whose parent is past `floor(n/2)` is trivially ordered |
| HeapOrder.BuildStep | lib/binary-heap.js:210-212 | before `heapify(i)` in the build loop, only slot `i` is out of place among the slots from `i` on |
| HeapSift.KeysOf | lib/binary-heap.js:238 | the keys of the entries, slot by slot |
| HeapSift.Smallest | lib/binary-heap.js:189-199 | the slot `heapify` picks: `i`, or a child strictly smaller than `i` and no larger than the other child |
| HeapSift.SinkDown | lib/binary-heap.js:188-204 | `heapify` as a function on entries; it keeps the length |
| HeapSift.SiftUp | lib/binary-heap.js:138-143 | the sift-up of `insert` and `decreaseKey` as a function; it keeps the length |
| HeapSift.PullUp | lib/binary-heap.js:90-93 | the pull-up loop of `delete` as a function; it keeps the length |
| HeapSift.BuildDown | lib/binary-heap.js:208-213 | the build loop as a function; it keeps the length |
| HeapSift.SinkDownKeeps | lib/binary-heap.js:188-204 | `heapify` only permutes the entries |
| HeapSift.SiftUpKeeps | lib/binary-heap.js:138-143 | the sift-up only permutes the entries |
| HeapSift.PullUpKeeps | lib/binary-heap.js:90-93 | the pull-up only permutes the entries and brings the chosen entry to slot 0 |
| HeapSift.BuildDownKeeps | lib/binary-heap.js:208-213 | the build loop only permutes the entries |
| HeapSift.SinkDownSorts | lib/binary-heap.js:188-204 | `heapify(i)` leaves ordered every slot it was asked to mend |
| HeapSift.SiftUpSorts | lib/binary-heap.js:138-143 | the sift-up restores heap order |
| HeapSift.PullUpDetaches | lib/binary-heap.js:90-93 | the pull-up leaves every pair below the root ordered |
| HeapSift.BuildDownSorts | lib/binary-heap.js:210-212 | heapifying every slot from `i` down to 0 yields heap order |
| HeapSift.BuildSorts | lib/binary-heap.js:208-213 | the whole build from `floor(n/2)` turns any entries into a heap-ordered permutation of them |
| HeapSift.Extracted | lib/binary-heap.js:103-115 | what `extractMinimum` leaves, one entry shorter (empty for one or zero entries) |
| HeapSift.Deleted | lib/binary-heap.js:88-95 | what `delete` leaves: pull-up then extract, one entry shorter |
| HeapSift.InsertSorts | lib/binary-heap.js:134-145 | `insert` adds exactly the new entry and keeps heap order |
| HeapSift.LowerSorts | lib/binary-heap.js:75-80 | `decreaseKey` swaps exactly the lowered entry for the new one and keeps heap order |
| HeapSift.ExtractKeeps | lib/binary-heap.js:103-115 | extracting removes exactly the root entry |
| HeapSift.ExtractSorts | lib/binary-heap.js:103-115 | extracting from entries ordered below the root removes the root and leaves heap order; from an ordered heap, the root's key is below every key left |
| HeapSift.ExtractBelow | lib/binary-heap.js:110-114 | the returned minimum of an ordered heap is below every key the extract keeps |
| HeapSift.DeleteSorts | lib/binary-heap.js:88-95 | `delete` of slot `j` removes exactly that entry and keeps heap order |
| LibBinaryHeap.Zip | lib/binary-heap.js:44-48 | the pairs `(keys[k], values[k])` `buildHeap` creates nodes for, in order |
| LibBinaryHeap.ContentsAfterExtract | lib/binary-heap.js:103-115 | losing the root entry loses exactly its key-value pair |
| LibBinaryHeap.ContentsAfterInsert | lib/binary-heap.js:134-145 | gaining an entry gains exactly its key-value pair |
| LibBinaryHeap.LoweredHeap | lib/binary-heap.js:75-80 | `decreaseKey`'s entries: the old entry swapped for the lowered one, heap order kept when it held |
| LibBinaryHeap.Node.constructor | lib/binary-heap.js:235-239 | a node with the given key, value and slot |
| LibBinaryHeap.BinaryHeap.constructor | lib/binary-heap.js:23-29 | an empty, ordered, indexed heap |
| LibBinaryHeap.BinaryHeap.IsEmpty | lib/binary-heap.js:150-152 | true exactly when the size is 0, that is, when no entry is stored |
| LibBinaryHeap.BinaryHeap.Size | lib/binary-heap.js:157-159 | the array length, which is the number of stored pairs |
| LibBinaryHeap.BinaryHeap.FindMinimum | lib/binary-heap.js:123-125 | null exactly on an empty heap; otherwise a stored node whose key, in heap order, is below every key |
| LibBinaryHeap.BinaryHeap.Clear | lib/binary-heap.js:56-58 | the heap is empty and valid |
| LibBinaryHeap.BinaryHeap.Swap | lib/binary-heap.js:215-221 | the nodes and their entries trade slots, each is told its new slot, and slot indices stay correct |
| LibBinaryHeap.BinaryHeap.Heapify | lib/binary-heap.js:188-204 | the entries become `SinkDown(old entries, i)`, and slot indices stay correct |
| LibBinaryHeap.BinaryHeap.BuildFrom | lib/binary-heap.js:208-213 | the given node array is adopted and becomes `BuildDown`: heap-ordered and a permutation of it |
| LibBinaryHeap.BinaryHeap.BuildHeap | lib/binary-heap.js:39-51 | throws the length-mismatch message and changes nothing when the arrays differ; otherwise a valid heap of fresh nodes holding exactly the zipped pairs |
| LibBinaryHeap.BinaryHeap.Insert | lib/binary-heap.js:134-145 | returns a fresh node with the key and value; the entries are the sift-up of the old ones plus it; one pair added; heap order and slot indices kept |
| LibBinaryHeap.BinaryHeap.ReplaceRoot | lib/binary-heap.js:110-113 | the last node moved into slot 0, renumbered, then `heapify(0)`: `Extracted` of the entries |
| LibBinaryHeap.BinaryHeap.ExtractMinimum | lib/binary-heap.js:103-115 | null exactly on an empty heap; otherwise the old root; the entries become `Extracted`, one pair removed; order holds afterwards when it held below the root; the key returned is below every key kept |
| LibBinaryHeap.BinaryHeap.DecreaseKey | lib/binary-heap.js:66-81 | throws for a missing node or a larger key, changing nothing; otherwise sets the key and sifts up (`SiftUp` of the updated entries), keeping one pair swapped for the lowered one and heap order |
| LibBinaryHeap.BinaryHeap.Delete | lib/binary-heap.js:88-95 | the entries become `Deleted(old entries, node.i)`: exactly that node leaves and heap order is kept |
| LibBinaryHeap.BinaryHeap.Union | lib/binary-heap.js:166-169 | the entries become the build of this array followed by the other's; in heap order; the multiset of both; the other heap's array untouched |
| SrcBinaryHeap.BinaryHeap.constructor | src/binary-heap.js:23-29 | an empty, ordered heap |
| SrcBinaryHeap.BinaryHeap.IsEmpty | src/binary-heap.js:75-77 | true exactly when the size is 0, that is, when no key is stored |
| SrcBinaryHeap.BinaryHeap.Size | src/binary-heap.js:79-81 | the number of stored keys |
| SrcBinaryHeap.BinaryHeap.FindMinimum | src/binary-heap.js:44-46 | None exactly on an empty heap; otherwise a stored key, below every key in heap order |
| SrcBinaryHeap.BinaryHeap.Heapify | src/binary-heap.js:48-62 | only swaps (multiset and length kept), and leaves the slots it mends in order |
| SrcBinaryHeap.BinaryHeap.Insert | src/binary-heap.js:64-73 | one occurrence of the key added, heap order kept |
| SrcBinaryHeap.BinaryHeap.ExtractMinimum | src/binary-heap.js:31-42 | None exactly on an empty heap; otherwise the old root, below every stored key, with one occurrence removed and order kept; one key leaves the heap empty |
| LibBinomialHeap.Bump | lib/binomial-heap.js:233 | `degree++`: `undefined` and `NaN` both become `NaN`, and only numbers stay numbers |
| LibBinomialHeap.Reversed | lib/binomial-heap.js:245-253 | the child list in the opposite order, element by element |
| LibBinomialHeap.FirstMin | lib/binomial-heap.js:77-93 | the root the scan settles on: a minimum key, strictly below every earlier root's key |
| LibBinomialHeap.FirstMinStep | lib/binomial-heap.js:84-89 | one more root scanned: the minimum moves to it exactly when `compare` says it is smaller |
| LibBinomialHeap.LinkKeys | lib/binomial-heap.js:229-234 | `linkTrees` keeps the keys of both trees |
| LibBinomialHeap.LinkOrdered | lib/binomial-heap.js:229-234 | linking under the smaller key keeps heap order |
| LibBinomialHeap.SmallKeys | lib/binomial-heap.js:229-234 | a tree the heap builds holds one or two keys |
| LibBinomialHeap.RootMinimal | lib/binomial-heap.js:229-234 | every key of an ordered tree is at least its root's key |
| LibBinomialHeap.MinimumBelowAll | lib/binomial-heap.js:77-93 | the root `FirstMin` picks in a heap-ordered root list holds the least key of the heap |
| LibBinomialHeap.MergeKeys | lib/binomial-heap.js:190-226 | `mergeHeaps` loses no key and invents no root |
| LibBinomialHeap.MergeAppends | lib/binomial-heap.js:200-222 | with no numeric degree in `a`, every `<=` fails and the merge is `b`'s roots followed by `a`'s |
| LibBinomialHeap.CombineKeys | lib/binomial-heap.js:142-168 | the linking pass of `union` keeps every key |
| LibBinomialHeap.CombineOrdered | lib/binomial-heap.js:152-163 | the linking pass keeps heap order, the smaller key on top |
| LibBinomialHeap.CombineSmall | lib/binomial-heap.js:147-148 | the pass links only two lone nodes, because `===` holds only between `undefined` degrees |
| LibBinomialHeap.UnionKeys | lib/binomial-heap.js:130-171 | `union` keeps the keys of both heaps |
| LibBinomialHeap.UnionOrdered | lib/binomial-heap.js:130-171 | `union` of two heap-ordered root lists is heap-ordered |
| LibBinomialHeap.UnionSmall | lib/binomial-heap.js:130-171 | `union` keeps every tree small |
| LibBinomialHeap.UnionMergesAfter | lib/binomial-heap.js:133 | in a heap of small trees, `union` puts the other heap's roots first |
| LibBinomialHeap.ForestReversed | lib/binomial-heap.js:245-253 | reversing the children keeps their keys |
| LibBinomialHeap.ExtractedKeys | lib/binomial-heap.js:236-258 | removing root `m` takes out exactly its key |
| LibBinomialHeap.ExtractedOrdered | lib/binomial-heap.js:236-258 | removing a root keeps heap order |
| LibBinomialHeap.ExtractedSmall | lib/binomial-heap.js:236-258 | removing a root keeps every tree small |
| LibBinomialHeap.Extraction | lib/binomial-heap.js:236-258 | removing a root: one key fewer, and order and shapes kept |
| LibBinomialHeap.MergeHeaps | lib/binomial-heap.js:190-226 | the loop of `mergeHeaps` computes `Merge` |
| LibBinomialHeap.BinomialHeap.constructor | lib/binomial-heap.js:23-30 | no roots, a count of zero, valid |
| LibBinomialHeap.BinomialHeap.Clear | lib/binomial-heap.js:35-38 | no roots, a count of zero, valid |
| LibBinomialHeap.BinomialHeap.IsEmpty | lib/binomial-heap.js:114-116 | true exactly when there is no root; in a valid heap, exactly when the count is zero |
| LibBinomialHeap.BinomialHeap.Size | lib/binomial-heap.js:121-123 | the count; in a valid heap, the number of keys held |
| LibBinomialHeap.BinomialHeap.FindMinimum | lib/binomial-heap.js:77-93 | None for no roots; otherwise the first root with a minimum key |
| LibBinomialHeap.BinomialHeap.Union | lib/binomial-heap.js:130-171 | the counts add up; the other heap loses its roots but keeps its count; the roots become `UnionOf`, holding the keys of both; validity kept |
| LibBinomialHeap.BinomialHeap.Insert | lib/binomial-heap.js:102-109 | returns the lone node of `undefined` degree; the count grows by one; the roots become `UnionOf(old, [node])`, one key more; validity kept |
| LibBinomialHeap.BinomialHeap.RemoveTreeRoot | lib/binomial-heap.js:236-258 | the roots become `Extracted(old, m)`, with the count unchanged |
| LibBinomialHeap.BinomialHeap.ExtractMinimum | lib/binomial-heap.js:46-69 | None and nothing changed on an empty heap; otherwise the first minimal root, removed with its key, one fewer counted; validity kept |
| Arena.RemoveChild | lib/binary-tree-node.js:23-30 | `removeChild`: whichever child slot held `n` is cleared, and nothing else changes |
| Arena.RotateLeftShaped | lib/splay-tree.js:112-130 | the child links of a left rotation give one binary tree with the same in-order, `y` taking the span of `x` |
| Arena.RotateRightShaped | lib/splay-tree.js:132-150 | the mirror for the right rotation |
| TreeRotation.RotateLeftLinked | lib/splay-tree.js:112-130 | the cells of `rotateLeft` form one parent-linked tree with the same in-order and the same identities |
| TreeRotation.RotateRightLinked | lib/splay-tree.js:132-150 | the mirror for `rotateRight` |
| TreeRotation.LeftRotateCells | lib/splay-tree.js:112-130 | the field writes of `rotateLeft`, in the source's order, produce exactly the rotated cells |
| TreeRotation.RightRotateCells | lib/splay-tree.js:132-150 | the field writes of `rotateRight`, in order, produce exactly the rotated cells |
| TreeEdit.AttachShaped | lib/binary-search-tree.js:44-55 | hanging a fresh leaf in a free child slot enters its key into the in-order just before or just after its parent |
| TreeEdit.PlantShaped | lib/binary-search-tree.js:35-38 | a single node planted in an empty tree is that tree |
| TreeEdit.DropShaped | lib/binary-search-tree.js:165-171 | unhooking a leaf removes exactly its slot from the in-order |
| TreeEdit.DropLastShaped | lib/binary-search-tree.js:169 | removing a leaf that is the root empties the tree |
| TreeEdit.AbsorbShaped | lib/binary-search-tree.js:174-186 | a node copying the key and links of its only child removes its own slot from the in-order |
| TreeEdit.AbsorbRelinkStep | lib/splay-tree.js:252-276 | the same for trees with parent links, the grandchildren re-parented to the node |
| TreeCut.CutStep | lib/red-black-tree.js:181-190 | cutting a subtree away from its parent removes exactly the block of its span from the in-order |
| TreeSearch.KeyAt | lib/binary-search-tree.js:63-84 | a node's key is the in-order key at its index |
| TreeSearch.OutsideEmpty | lib/binary-search-tree.js:71-78 | a search window that has closed leaves no place for the key |
| TreeSearch.GoLeft | lib/binary-search-tree.js:70-74 | going left on a smaller key narrows the window to the left subtree; with no left child the key is absent |
| TreeSearch.GoRight | lib/binary-search-tree.js:75-79 | the mirror for a larger key |
| TreeSearch.Leftmost | lib/binary-search-tree.js:101-114 | the node with no left child at the start of the in-order holds the first key, the least on an ordered tree |
| TreeSearch.Rightmost | lib/binary-search-tree.js:86-99 | the node with no right child at the end holds the last key, the largest on an ordered tree |
| TreeSearch.FindParentOfMinimum | lib/binary-search-tree.js:197-203 | follows left links from `node`; with a left child, the result's left child is the first node of `node`'s subtree; without one, the result is `parent` |
| TreeRemoval.SuccessorChoice | lib/binary-search-tree.js:188-192 | the node `findParentOfMinimum(node.right, node)` leads to lies inside the subtree, away from `node`; it is the in-order successor unless the right child has no left child |
| TreeRemoval.SuccessorKeys | lib/binary-search-tree.js:188-194 | deleting the successor and copying its key removes exactly the node's key; under `Plain`, exactly its slot |
| TreeRemoval.SuccessorDeleted | lib/binary-search-tree.js:188-194 | the two-children deletion is a `Deleted` of the node |
| TreeRemoval.SlotDeleted | lib/binary-search-tree.js:164-195 | taking exactly one slot out of the in-order, with every other node in place, is a `Deleted` |
| Traversal.View | lib/base-binary-tree.js:11-66 | the subtree below a node as a value; Nil exactly for a missing child |
| Traversal.InOrderSpan | lib/base-binary-tree.js:30-43 | the in-order of a subtree is the slice of the in-order keys its span covers |
| Traversal.InOrderIsKeys | lib/base-binary-tree.js:30-43 | from the root, the in-order is the tree's in-order key sequence |
| Traversal.SameVisits | lib/base-binary-tree.js:11-66 | pre- and post-order visit the same keys, as often as the in-order |
| Traversal.VisitCount | lib/base-binary-tree.js:11-66 | each traversal visits as many keys as there are nodes |
| Traversal.TraversePreOrder | lib/base-binary-tree.js:11-28 | the stack loop outputs `PreOrder` of the tree; nothing on an empty tree |
| Traversal.TraverseInOrder | lib/base-binary-tree.js:30-43 | the stack loop outputs `InOrder` of the tree |
| Traversal.TraversePostOrder | lib/base-binary-tree.js:45-66 | the loop with `lastVisitedNode` outputs `PostOrder` of the tree |
| LibBinarySearchTree.HangStep | lib/binary-search-tree.js:44-55 | `current.left = newNode` (or right) with a fresh identity enters the key next to `current` |
| LibBinarySearchTree.UnhookStep | lib/binary-search-tree.js:165-168 | `parent.removeChild(node)` on a leaf is a `Deleted` of it |
| LibBinarySearchTree.UprootStep | lib/binary-search-tree.js:169 | a leaf root removed leaves the empty tree |
| LibBinarySearchTree.TakeOverStep | lib/binary-search-tree.js:174-186 | a node taking over its only child is a `Deleted` of it |
| LibBinarySearchTree.SuccessorStep | lib/binary-search-tree.js:190-194 | after the chosen node is deleted, writing its key into `node` completes the deletion of `node` |
| LibBinarySearchTree.BinarySearchTree.constructor | lib/binary-search-tree.js:19-26 | an empty tree, count zero |
| LibBinarySearchTree.BinarySearchTree.Add | lib/binary-search-tree.js:32-61 | true: one more node, the key entered into the in-order; false: the key was present and nothing changed; on an ordered tree, true exactly for an absent key, and order kept |
| LibBinarySearchTree.BinarySearchTree.Plant | lib/binary-search-tree.js:35-38 | the empty tree gets the one key |
| LibBinarySearchTree.BinarySearchTree.HangBelow | lib/binary-search-tree.js:43-55 | the new leaf at the end of the descent: the key entered, absent before, order kept |
| LibBinarySearchTree.BinarySearchTree.Hang | lib/binary-search-tree.js:44-55 | the new leaf's key enters the in-order just before or after `current` |
| LibBinarySearchTree.BinarySearchTree.Contains | lib/binary-search-tree.js:63-84 | a true answer means the key is stored; on an ordered tree, true exactly when it is |
| LibBinarySearchTree.BinarySearchTree.FindMaximum | lib/binary-search-tree.js:86-99 | None on an empty tree; otherwise the last in-order key, the largest on an ordered tree |
| LibBinarySearchTree.BinarySearchTree.FindMinimum | lib/binary-search-tree.js:101-114 | None on an empty tree; otherwise the first in-order key, the least on an ordered tree |
| LibBinarySearchTree.BinarySearchTree.IsEmpty | lib/binary-search-tree.js:116-118 | true exactly when no key is stored |
| LibBinarySearchTree.BinarySearchTree.Size | lib/binary-search-tree.js:148-150 | the number of keys stored |
| LibBinarySearchTree.BinarySearchTree.Remove | lib/binary-search-tree.js:120-146 | false: nothing changed, and on an ordered tree the key is absent; true: the key was stored, the count drops, one occurrence leaves the multiset; order is kept when every node holding the key is `Plain` |
| LibBinarySearchTree.BinarySearchTree.RemoveFound | lib/binary-search-tree.js:140-143 | the count drops and the found key leaves the multiset; order kept for a `Plain` node |
| LibBinarySearchTree.BinarySearchTree.DeleteNode | lib/binary-search-tree.js:164-195 | a `Deleted` of the node, whatever its shape |
| LibBinarySearchTree.BinarySearchTree.ReplaceBySuccessor | lib/binary-search-tree.js:188-194 | the two-children case is a `Deleted` of the node |
| LibBinarySearchTree.BinarySearchTree.RemoveLeaf | lib/binary-search-tree.js:165-171 | a leaf unhooked, or the tree emptied: a `Deleted` of it |
| LibBinarySearchTree.BinarySearchTree.TakeOver | lib/binary-search-tree.js:174-186 | a one-child node replaced by its child: a `Deleted` of it |
| SrcBinarySearchTree.LeafSuccessorStep | src/binary-search-tree.js:254-261 | two children and a leaf right child: unhooking it and writing its key takes exactly the node's slot out of the in-order |
| SrcBinarySearchTree.OneChildStep | src/binary-search-tree.js:228-252 | a one-child node taking over its child's key and links takes exactly its slot out |
| SrcBinarySearchTree.RightLeafStep | src/binary-search-tree.js:258-261 | `removeChild(node.right)` and the key written: exactly the node's slot out |
| SrcBinarySearchTree.BinarySearchTree.constructor | src/binary-search-tree.js:27-34 | an empty tree, count zero |
| SrcBinarySearchTree.BinarySearchTree.Add | src/binary-search-tree.js:36-65 | an absent key adds one node; a node added means the key entered the in-order; an unchanged count means nothing changed; on an ordered tree the key is added exactly when absent and order is kept |
| SrcBinarySearchTree.BinarySearchTree.Plant | src/binary-search-tree.js:39-43 | the empty tree gets the one key |
| SrcBinarySearchTree.BinarySearchTree.HangBelow | src/binary-search-tree.js:47-60 | the new leaf at the end of the descent: the key entered, absent before, order kept |
| SrcBinarySearchTree.BinarySearchTree.Hang | src/binary-search-tree.js:48-58 | the new leaf's key enters the in-order next to `current` |
| SrcBinarySearchTree.BinarySearchTree.Contains | src/binary-search-tree.js:67-88 | a true answer means the key is stored; on an ordered tree, true exactly when it is |
| SrcBinarySearchTree.BinarySearchTree.FindMaximum | src/binary-search-tree.js:90-103 | None on an empty tree; otherwise the last in-order key, the largest on an ordered tree |
| SrcBinarySearchTree.BinarySearchTree.FindMinimum | src/binary-search-tree.js:105-118 | None on an empty tree; otherwise the first in-order key, the least on an ordered tree |
| SrcBinarySearchTree.BinarySearchTree.IsEmpty | src/binary-search-tree.js:120-122 | true exactly when there is no root, exactly when no key is stored |
| SrcBinarySearchTree.BinarySearchTree.Size | src/binary-search-tree.js:152-154 | the number of keys stored |
| SrcBinarySearchTree.BinarySearchTree.TraversePreOrder | src/binary-search-tree.js:156-173 | `PreOrder` of the tree: every key once |
| SrcBinarySearchTree.BinarySearchTree.TraverseInOrder | src/binary-search-tree.js:175-188 | the in-order keys, ascending on an ordered tree |
| SrcBinarySearchTree.BinarySearchTree.TraversePostOrder | src/binary-search-tree.js:190-210 | `PostOrder` of the tree: every key once |
| SrcBinarySearchTree.BinarySearchTree.Remove | src/binary-search-tree.js:124-150 | Absent: nothing changed, and the key is absent on an ordered tree; otherwise the count drops; Removed: the slot of one occurrence of the key is taken out of the in-order, order kept; Threw: at most that slot overwritten by another key |
| SrcBinarySearchTree.BinarySearchTree.RemoveFound | src/binary-search-tree.js:144-147 | the found branch: the count drops, then the slot leaves (Removed) or the throw's state (Threw) |
| SrcBinarySearchTree.BinarySearchTree.DeleteNode | src/binary-search-tree.js:222-256 | throws exactly on the `Throws` shapes; otherwise takes exactly the node's slot out of the in-order |
| SrcBinarySearchTree.BinarySearchTree.RekeyFromRight | src/binary-search-tree.js:242 | `node.key = node.right.key` before the right-only throw: only that slot changes, to a stored key |
| SrcBinarySearchTree.BinarySearchTree.ReplaceByRightLeaf | src/binary-search-tree.js:255-261 | a leaf right child unhooked and its key written in: exactly the node's slot out |
| SrcBinarySearchTree.BinarySearchTree.TakeOver | src/binary-search-tree.js:228-252 | the one-child cases that complete: exactly the node's slot out |
| SplayTree.RaisedTwice | lib/splay-tree.js:289-301 | two rotations that give `n` the old span of its grandparent raise `n` |
| SplayTree.ZagRight | lib/splay-tree.js:295-297 | after the first rotation of a zig-zag, `n` has the parent's span and hangs below the grandparent |
| SplayTree.ZagLeft | lib/splay-tree.js:298-300 | the mirror |
| SplayTree.HangStep | lib/splay-tree.js:157 | `node.left = new BinaryTreeNode(key, node)` enters the key next to `node`, with its parent link set |
| SplayTree.UnhookStep | lib/splay-tree.js:243-250 | `node.parent.removeChild(node)` on a leaf is a `Deleted` of it |
| SplayTree.UprootStep | lib/splay-tree.js:247 | a leaf root removed leaves the empty tree |
| SplayTree.ReparentSwap | lib/splay-tree.js:252-276 | the two re-parentings of a take-over commute |
| SplayTree.RelinkedKept | lib/splay-tree.js:252-276 | taking over a child and re-parenting its children keeps every other node's key |
| SplayTree.TakeOverStep | lib/splay-tree.js:252-276 | `removeNodeWithLeftOnly` and its mirror are a `Deleted` of the node |
| SplayTree.SuccessorStep | lib/splay-tree.js:234-238 | after `minNode` is removed, writing its key completes the deletion of `node` |
| SplayTree.ContainsInternal | lib/splay-tree.js:176-196 | a node returned holds the key and lies in the subtree searched |
| SplayTree.ContainsInternalComplete | lib/splay-tree.js:176-196 | on an ordered tree the descent finds the key exactly when it is stored |
| SplayTree.SplayTree.constructor | lib/splay-tree.js:19-25 | an empty tree, count zero |
| SplayTree.SplayTree.RotateLeft | lib/splay-tree.js:112-130 | the rotated cells, `y` as the root when `x` was; one linked tree with the same in-order |
| SplayTree.SplayTree.RotateRight | lib/splay-tree.js:132-150 | the mirror |
| SplayTree.SplayTree.Zig | lib/splay-tree.js:281-286 | one rotation at the root parent, by the side of `n`; `n` raised |
| SplayTree.SplayTree.ZigZigLeft | lib/splay-tree.js:289-291 | right rotations at `g` and then at `p`; `n` raised |
| SplayTree.SplayTree.ZigZigRight | lib/splay-tree.js:292-294 | left rotations at `g` and then at `p`; `n` raised |
| SplayTree.SplayTree.ZigZagLeft | lib/splay-tree.js:295-297 | right at `p`, then left at the new parent; `n` raised |
| SplayTree.SplayTree.ZigZagRight | lib/splay-tree.js:298-300 | left at `p`, then right at the new parent; `n` raised |
| SplayTree.SplayTree.SplayStep | lib/splay-tree.js:280-302 | one pass of the loop, dispatched by the shape above `n`: `n` raised |
| SplayTree.SplayTree.Splay | lib/splay-tree.js:278-304 | `n` ends as the root; every node keeps its key and its place in the in-order |
| SplayTree.SplayTree.Contains | lib/splay-tree.js:43-53 | found: the key's node is the root and the key is stored; missed: nothing changed; keys and in-order kept; on an ordered tree, found exactly when stored |
| SplayTree.SplayTree.Add | lib/splay-tree.js:31-41 | true: one node more, the key entered; false: the key was present and the keys are unchanged; on an ordered tree, true exactly when absent, order kept and the key at the root |
| SplayTree.SplayTree.Plant | lib/splay-tree.js:32-36 | the empty tree gets the one key, at the root |
| SplayTree.SplayTree.InsertInternal | lib/splay-tree.js:152-174 | true: one node more, the key entered; false: present and nothing changed; on an ordered tree, true exactly when absent, order kept |
| SplayTree.SplayTree.HangBelow | lib/splay-tree.js:153-170 | the new leaf at the end of the descent: the key entered, absent before, order kept |
| SplayTree.SplayTree.Hang | lib/splay-tree.js:157-159 | the new leaf's key enters the in-order next to `node` |
| SplayTree.SplayTree.FindMaximum | lib/splay-tree.js:55-68 | None on an empty tree; otherwise the last in-order key, the largest on an ordered tree |
| SplayTree.SplayTree.FindMinimum | lib/splay-tree.js:70-83 | None on an empty tree; otherwise the first in-order key, the least on an ordered tree |
| SplayTree.SplayTree.IsEmpty | lib/splay-tree.js:85-87 | true exactly when no key is stored |
| SplayTree.SplayTree.Size | lib/splay-tree.js:98-100 | the number of keys stored |
| SplayTree.SplayTree.TraversePreOrder | src/splay-tree.js:107-124 | `PreOrder` of the tree: every key once |
| SplayTree.SplayTree.TraverseInOrder | src/splay-tree.js:126-139 | the in-order keys, ascending on an ordered tree |
| SplayTree.SplayTree.TraversePostOrder | src/splay-tree.js:141-162 | `PostOrder` of the tree: every key once |
| SplayTree.SplayTree.Remove | lib/splay-tree.js:89-96 | false: the keys unchanged; true: the key was stored, one occurrence leaves, the count drops; on an ordered tree, true exactly when stored |
| SplayTree.SplayTree.RemoveInternal | lib/splay-tree.js:198-214 | false: nothing changed and the key is absent on an ordered tree; a match at `node` means true; true: one occurrence leaves; order kept for `Plain` nodes |
| SplayTree.SplayTree.RemoveFound | lib/splay-tree.js:213 | the count drops, the node's key leaves; order kept for a `Plain` node |
| SplayTree.SplayTree.RemoveInternal2 | lib/splay-tree.js:216-241 | a `Deleted` of the node, the count one lower |
| SplayTree.SplayTree.RemoveBySuccessor | lib/splay-tree.js:232-240 | the two-children case is a `Deleted` of the node |
| SplayTree.SplayTree.WriteKey | lib/splay-tree.js:238 | once `minNode` is gone, `node.key = newKey` completes the deletion |
| SplayTree.SplayTree.RemoveNodeWithNoChildren | lib/splay-tree.js:243-250 | a leaf unhooked, or the tree emptied: `Deleted`, the count one lower |
| SplayTree.SplayTree.RemoveNodeWithLeftOnly | lib/splay-tree.js:252-263 | `Deleted`, with the grandchildren re-parented |
| SplayTree.SplayTree.RemoveNodeWithRightOnly | lib/splay-tree.js:265-276 | `Deleted`, with the grandchildren re-parented |
| RedBlackTreeNode.NewColor | lib/red-black-tree-node.js:33 | a new node is black exactly when it has no key |
| RedBlackTree.NilStep | lib/red-black-tree-node.js:40-52 | creating a sentinel below a node keeps one linked tree with the same real keys |
| RedBlackTree.NilSentinels | lib/red-black-tree-node.js:40-52 | a sentinel hung below a real node or the root keeps every non-root sentinel a leaf |
| RedBlackTree.DescendLeft | lib/red-black-tree.js:141-145 | going left on a smaller key narrows the window; a missing or nil left child means the key is absent |
| RedBlackTree.DescendRight | lib/red-black-tree.js:146-150 | the mirror |
| RedBlackTree.SpineRightStep | lib/red-black-tree.js:348-353 | a real node on the right spine holds a key; a nil or missing right child makes its key the last |
| RedBlackTree.SpineLeftStep | lib/red-black-tree.js:366-371 | the mirror: the first key |
| RedBlackTree.LeftRotatedFrom | lib/red-black-tree.js:288-306 | the writes of `rotateLeft` give the `LeftRotated` relation: keys and colours stay, `y` above `x`, the parent repointed |
| RedBlackTree.RightRotatedFrom | lib/red-black-tree.js:319-337 | the mirror |
| RedBlackTree.SpliceCut | lib/red-black-tree.js:176-190 | cutting the sentinel side `d` off `y` leaves `x` the only child; the real keys lost are those below `d` |
| RedBlackTree.SpliceAbsorb | lib/red-black-tree.js:181-190 | `x` taking the place of `y`: the slot of `y` leaves the in-order |
| RedBlackTree.SpliceRekey | lib/red-black-tree.js:191-193 | `node.key = y.key` swaps one real key for another |
| RedBlackTree.PairOut | lib/red-black-tree.js:171-190 | a node with a sentinel child spliced out: its key leaves at its rank |
| RedBlackTree.TripleOut | lib/red-black-tree.js:174-193 | the successor spliced out and its key written into `node`: `node`'s key leaves at its rank |
| RedBlackTree.SpliceKeys | lib/red-black-tree.js:176-193 | the in-order across the whole splice: the key of `node` leaves at its rank |
| RedBlackTree.SpliceTwo | lib/red-black-tree.js:176-190 | cut and take-over from one arena to the next: one linked tree without the key of `y` and those below `d` |
| RedBlackTree.SpliceAll | lib/red-black-tree.js:176-193 | the whole splice: one linked tree; the key of `node` and the keys below `d` leave, none lost when `d` is a sentinel leaf; at `node`'s rank on a `Splicing` start |
| RedBlackTree.SpliceCells | lib/red-black-tree.js:176-193 | the cells and colours of the splice, with the `Tally` of keys; the identity left in place is `y`, holding the cell and colour of `x` |
| RedBlackTree.MinBefore | lib/red-black-tree.js:271 | before `getLeft` at the end of the left chain: a real left child spans less; a missing or nil one means the first key is reached |
| RedBlackTree.MinAfter | lib/red-black-tree.js:271-272 | after `getLeft`: the left chain and its extension are left links, and the depths are kept |
| RedBlackTree.RedBlackTree.constructor | lib/red-black-tree.js:24-38 | no root and a count of zero |
| RedBlackTree.RedBlackTree.GetLeft | lib/red-black-tree-node.js:40-45 | the existing left child with nothing changed, or a new black sentinel with parent `n`; keys, root and the sentinel invariant kept |
| RedBlackTree.RedBlackTree.GetRight | lib/red-black-tree-node.js:47-52 | the mirror |
| RedBlackTree.RedBlackTree.HangNil | lib/red-black-tree-node.js:42 | `new RedBlackTreeNode(undefined, n)` stored as the child |
| RedBlackTree.RedBlackTree.Child | lib/red-black-tree.js:203-204 | `getLeft` or `getRight` as the delete fixup uses it, keeping depths |
| RedBlackTree.RedBlackTree.RotateLeft | lib/red-black-tree.js:288-306 | `LeftRotated`: same keys and colours, `y` rose in place of `x` |
| RedBlackTree.RedBlackTree.PrepareLeft | lib/red-black-tree.js:289-298 | the getter calls of `rotateLeft`: every node read now exists, nothing else changes |
| RedBlackTree.RedBlackTree.TurnLeft | lib/red-black-tree.js:290-305 | the writes of `rotateLeft`: `LeftTurned` |
| RedBlackTree.RedBlackTree.RotateRight | lib/red-black-tree.js:319-337 | the mirror of `RotateLeft` |
| RedBlackTree.RedBlackTree.PrepareRight | lib/red-black-tree.js:320-329 | the getter calls of `rotateRight` |
| RedBlackTree.RedBlackTree.TurnRight | lib/red-black-tree.js:321-336 | the writes of `rotateRight` |
| RedBlackTree.RedBlackTree.Search | lib/red-black-tree.js:134-155 | None on an empty tree; a found node holds the key, or is a nil root; keys kept; on an ordered tree with a real root and leaf sentinels, found exactly when stored |
| RedBlackTree.RedBlackTree.Contains | lib/red-black-tree.js:124-126 | true means stored, or a nil root; a nil root always answers true; on an ordered tree with a real root and leaf sentinels, true exactly when stored |
| RedBlackTree.RedBlackTree.FindMaximum | lib/red-black-tree.js:342-355 | None exactly when the root is missing or nil; a stored key; the last in-order key with leaf sentinels |
| RedBlackTree.RedBlackTree.RightEnd | lib/red-black-tree.js:347-354 | the loop of `findMaximum` from a real root |
| RedBlackTree.RedBlackTree.SpineRight | lib/red-black-tree.js:349 | one `getRight` on the spine |
| RedBlackTree.RedBlackTree.FindMinimum | lib/red-black-tree.js:360-373 | None exactly when the root is missing or nil; a stored key; the first in-order key with leaf sentinels |
| RedBlackTree.RedBlackTree.LeftEnd | lib/red-black-tree.js:365-372 | the loop of `findMinimum` from a real root |
| RedBlackTree.RedBlackTree.SpineLeft | lib/red-black-tree.js:367 | one `getLeft` on the spine |
| RedBlackTree.RedBlackTree.IsEmpty | lib/red-black-tree.js:378-380 | true exactly when the count is zero |
| RedBlackTree.RedBlackTree.Size | lib/red-black-tree.js:385-387 | the count |
| RedBlackTree.RedBlackTree.Descend | lib/red-black-tree.js:53-64 | the descent: a node holding the key, or the last real node and the sentinel below it, with the key's window narrowed |
| RedBlackTree.RedBlackTree.StepLeft | lib/red-black-tree.js:59-60 | one `getLeft` of the descent |
| RedBlackTree.RedBlackTree.StepRight | lib/red-black-tree.js:61-62 | one `getRight` of the descent |
| RedBlackTree.RedBlackTree.Add | lib/red-black-tree.js:50-76 | false: count and keys unchanged, the key stored; true: one more counted, the root black, the key entered into the in-order (or the only key, on a tree without a real root); on an ordered tree with leaf sentinels, true exactly when absent |
| RedBlackTree.RedBlackTree.Insert | lib/red-black-tree.js:65-75 | after a miss: the key entered, one more counted, the root black |
| RedBlackTree.RedBlackTree.Locate | lib/red-black-tree.js:51-64 | found means stored; otherwise the parent and the sentinel below it; found exactly when stored on an ordered tree |
| RedBlackTree.RedBlackTree.Put | lib/red-black-tree.js:65-72 | `key` written into the sentinel below `parent`, or a new root alone; the node red; the key entered |
| RedBlackTree.RedBlackTree.InsertFixup | lib/red-black-tree.js:78-116 | keys and in-order kept, and the root black |
| RedBlackTree.RedBlackTree.InsertStep | lib/red-black-tree.js:79-113 | one pass of the loop: keys kept, the climb goes up or ends |
| RedBlackTree.RedBlackTree.InsertLeft | lib/red-black-tree.js:81-96 | the left-parent branch: red uncle recoloured, or rotations |
| RedBlackTree.RedBlackTree.InsertRight | lib/red-black-tree.js:97-112 | the right-parent branch, with the grandparent blackened on a red uncle as at line 100 |
| RedBlackTree.RedBlackTree.UncleLeft | lib/red-black-tree.js:83-96 | the uncle test of the left branch: keys and in-order kept; a climb continues only from a node no deeper than the grandparent |
| RedBlackTree.RedBlackTree.InsertLeftRotate | lib/red-black-tree.js:88-95 | the black-uncle case: keys and in-order kept, and the climb ends |
| RedBlackTree.RedBlackTree.OutwardLeft | lib/red-black-tree.js:89-92 | an inner grandchild rotated outward: keys kept, and the node reached is a left child of a left child |
| RedBlackTree.RedBlackTree.LiftLeft | lib/red-black-tree.js:93-95 | parent black, grandparent red, right rotation at the grandparent: keys kept, and the climb ends |
| RedBlackTree.RedBlackTree.UncleRight | lib/red-black-tree.js:99-112 | the mirror of `UncleLeft`, with the grandparent blackened at line 100 |
| RedBlackTree.RedBlackTree.InsertRightRotate | lib/red-black-tree.js:104-111 | the mirror of `InsertLeftRotate` |
| RedBlackTree.RedBlackTree.OutwardRight | lib/red-black-tree.js:105-108 | the mirror of `OutwardLeft` |
| RedBlackTree.RedBlackTree.LiftRight | lib/red-black-tree.js:109-111 | the mirror of `LiftLeft` |
| RedBlackTree.RedBlackTree.Remove | lib/red-black-tree.js:163-198 | false: nothing changed; true: one fewer counted, the key and only the key leaves (a nil root loses nothing), at its rank in the in-order with leaf sentinels, and an ascending in-order stays ascending; on an ordered tree, true exactly when stored |
| RedBlackTree.RedBlackTree.RemoveAt | lib/red-black-tree.js:168-197 | the count drops and the key of `node` leaves, at its rank with leaf sentinels |
| RedBlackTree.RedBlackTree.Splicee | lib/red-black-tree.js:171-175 | `y` is `node` when a child is nil, else the successor: real, deeper, with a nil left child |
| RedBlackTree.RedBlackTree.TreeSuccessor | lib/red-black-tree.js:255-265 | for a real node with a real right child, the node holding the first key of the right subtree; for a nil node, its parent |
| RedBlackTree.RedBlackTree.TreeMinimum | lib/red-black-tree.js:270-275 | a nil `n` is returned as is; for a real `n`, the node holding the first key of `n`'s subtree, with a nil left child |
| RedBlackTree.RedBlackTree.MinWalk | lib/red-black-tree.js:271-273 | the loop of `treeMinimum` from a real node |
| RedBlackTree.RedBlackTree.MinStep | lib/red-black-tree.js:271 | one `getLeft` of `treeMinimum` |
| RedBlackTree.RedBlackTree.SpliceOut | lib/red-black-tree.js:176-196 | `x` replaces `y`, and `node` gets `y`'s key: the key of `node` leaves at its rank; `deleteFixup` runs exactly when `y` was black, and the node it stops at ends black; otherwise every other node keeps its colour |
| RedBlackTree.RedBlackTree.ParentLeft | lib/red-black-tree.js:185 | `y.parent.getLeft()`: `y` and the depths untouched, the sentinel invariant kept |
| RedBlackTree.RedBlackTree.LeftOfParent | lib/red-black-tree.js:185 | that `getLeft` on the parent of `y` |
| RedBlackTree.RedBlackTree.Sides | lib/red-black-tree.js:176-180 | `x` is the left child when real, else the right one; `d` the other child |
| RedBlackTree.RedBlackTree.Splice | lib/red-black-tree.js:181-193 | the cells after the splice: `Tally` of keys, the colour of `y` replaced by that of `x` |
| RedBlackTree.RedBlackTree.DeleteFixup | lib/red-black-tree.js:200-253 | keys and in-order kept; the node the loop stops at ends black; a red node or the root is just painted black |
| RedBlackTree.RedBlackTree.DeleteStep | lib/red-black-tree.js:201-250 | one pass of the loop |
| RedBlackTree.RedBlackTree.DeleteLeft | lib/red-black-tree.js:203-226 | the left case |
| RedBlackTree.RedBlackTree.DeleteRight | lib/red-black-tree.js:227-249 | the right case |
| RedBlackTree.RedBlackTree.RedSiblingLeft | lib/red-black-tree.js:205-209 | a red sibling painted black, the parent red, a left rotation: keys kept, `p` now red below `w`, `node` still its left child |
| RedBlackTree.RedBlackTree.SiblingLeft | lib/red-black-tree.js:210-226 | keys kept; the loop goes on at a shallower node or ends at the root |
| RedBlackTree.RedBlackTree.FarLeft | lib/red-black-tree.js:214-225 | keys kept, and the loop ends at the root |
| RedBlackTree.RedBlackTree.NearLeft | lib/red-black-tree.js:215-220 | the near child rotated up: keys kept, `node` keeps its parent, the new sibling is its right child |
| RedBlackTree.RedBlackTree.NearTurnLeft | lib/red-black-tree.js:216-218 | the recolouring and right rotation at `w`: keys kept, `node` keeps its parent |
| RedBlackTree.RedBlackTree.TurnFarLeft | lib/red-black-tree.js:221-225 | keys kept, and the loop ends at the root |
| RedBlackTree.RedBlackTree.RecolorFarLeft | lib/red-black-tree.js:221-223 | colours only: keys kept |
| RedBlackTree.RedBlackTree.RedSiblingRight | lib/red-black-tree.js:229-233 | the mirror of `RedSiblingLeft` |
| RedBlackTree.RedBlackTree.SiblingRight | lib/red-black-tree.js:234-249 | the mirror of `SiblingLeft` |
| RedBlackTree.RedBlackTree.FarRight | lib/red-black-tree.js:237-248 | the mirror of `FarLeft` |
| RedBlackTree.RedBlackTree.NearRight | lib/red-black-tree.js:238-243 | the mirror of `NearLeft` |
| RedBlackTree.RedBlackTree.NearTurnRight | lib/red-black-tree.js:239-241 | the mirror of `NearTurnLeft` |
| RedBlackTree.RedBlackTree.TurnFarRight | lib/red-black-tree.js:244-248 | the mirror of `TurnFarLeft` |
| RedBlackTree.RedBlackTree.RecolorFarRight | lib/red-black-tree.js:244-246 | the mirror of `RecolorFarLeft` |
| RedBlackTree.RedBlackTree.BothBlack | lib/red-black-tree.js:210 | the two-black-children test, with the children read in the source's order |
| RedBlackTree.RedBlackTree.Paint | lib/red-black-tree.js:252 | `n.color = c`: only that colour changes |

## Left out

- Comparators: every constructor's `customCompare` is left out. Keys are
  integers ordered by the default three-way `compare` (`Common.Compare`).
  `src/binary-heap.js` stores the comparator (src/binary-heap.js:26-28)
  but never calls it, so there nothing is lost. The heaps' values are
  opaque payloads.
- Traversal.TraversePreOrder, Traversal.TraverseInOrder and
  Traversal.TraversePostOrder: the `visit` callback is not called. The
  model returns the keys it would receive, in order, as a sequence. A
  callback with side effects on the tree is not modelled.
- SrcBinarySearchTree.BinarySearchTree.Remove,
  SrcBinarySearchTree.BinarySearchTree.RemoveFound and
  SrcBinarySearchTree.BinarySearchTree.DeleteNode: require that the node
  being removed (for `Remove`, every node holding the key) does not have
  the `Drops` shape (src/binary-search-tree.js:255,
  :258-261). That shape is two children whose right child has a right
  child but no left one. On it, `extractMinimum` unhooks the right child
  together with its right subtree, and those keys vanish from the tree.
  The model does not capture that loss.
- LibBinaryHeap.BinaryHeap.DecreaseKey and LibBinaryHeap.BinaryHeap.Delete:
  require `Linked()` (every node's `i` is its slot) and a node stored in
  the heap. After `union` (lib/binary-heap.js:166-169) the other heap's
  nodes keep stale indices. The source then swaps whatever slots they
  name, and the model does not follow such calls.
- LibBinaryHeap.BinaryHeap.Union: `buildHeapFromNodeArray` only runs
  `heapify`, which rewrites `i` only for the nodes it swaps. So `Union`
  promises `Valid()` and not `Linked()`.
- LibBinomialHeap.BinomialHeap.Union: requires `heap != this`. A self-union
  merges a root list with itself (lib/binomial-heap.js:190-226), which
  builds a cyclic `sibling` chain. A root list of value trees cannot
  express that.
- LibBinomialHeap nodes are value `Tree`s. The `sibling`, `child` and
  `parent` pointers and the node identity (lib/binomial-heap.js:146-168,
  :236-257) are not kept.
  - The returned node is a copy, so `insert`'s result cannot be used as a
    handle.
  - A parent is implied by the tree a node sits in.
  - The rewrites of `sibling` in `union` and `removeTreeRoot` are replaced
    by the root-list functions `Combine`, `Merge` and `Extracted`.
- LibBinomialHeap: the numeric `degree` case (`Num`) is defined, but only
  `undefined` and `NaN` can arise, which `Small` states and the lemmas use.
- RedBlackTree.RedBlackTree.Remove: requires `!Wedged()`. Wedged means a
  nil root with two real children, on which `remove` reaches
  `treeSuccessor` of a nil node, whose climb finds no successor
  (lib/red-black-tree.js:259-264), and the source then reads `y.getLeft()`
  of `undefined`.
- RedBlackTree.RedBlackTree.Remove: does not state that removal keeps
  `Sentinels` (every non-root nil sentinel is a leaf). It does not in the
  source: `deleteFixup` calls `getLeft`/`getRight` on a sibling `w` that
  may be a nil sentinel (lib/red-black-tree.js:210, :215-223, :234,
  :238-246), which gives that sentinel children of its own.
  - Consequence: the "exactly when stored" clauses of `Search`, `Contains`,
    `Add` and `Remove`, which assume `Sentinels`, cannot be chained past a
    removal.
- RedBlackTree.RedBlackTree.Add: does not state that `Sentinels` and an
  ascending in-order are kept. `Locate` keeps `Sentinels`, and `Add`
  states that the key is entered into the in-order. It does not state the
  slot the descent picks, and no `Sentinels` invariant is carried through
  `InsertFixup` and its rotations. So after an `Add` the order and
  sentinel hypotheses of the next call are not re-established by the
  contract.
- RedBlackTree.RedBlackTree.InsertFixup and
  RedBlackTree.RedBlackTree.DeleteFixup: no red-black balance invariant
  (black heights, no red-red edge) is stated or proved. The contracts
  state the in-order kept and the final colouring only.
- RedBlackTree rotations: `TreeRotation.LeftRotateCells` and
  `TreeRotation.RightRotateCells` re-parent the moved inner grandchild
  even when it is a nil sentinel. `lib/red-black-tree.js` re-parents it
  only when it is real (lib/red-black-tree.js:291-293, :322-324). The
  difference cannot be seen through the public operations: a sentinel's
  parent is written before it is read, in `add` (lib/red-black-tree.js:69)
  and in `remove` (lib/red-black-tree.js:181). Only a `visit` callback
  reading `node.parent` on a sentinel could tell.
- RedBlackTree.RedBlackTree.RotateLeft and
  RedBlackTree.RedBlackTree.RotateRight: the getter calls of a rotation
  (`PrepareLeft`, `PrepareRight`) are all made before its first write.
  The source calls `x.parent.getLeft()` after the first writes
  (lib/red-black-tree.js:298, :329). The same nodes get the same
  sentinels; within one rotation only the order of identity allocation
  differs.
- RedBlackTree.RedBlackTree.Splice and RedBlackTree.SpliceCells: the node
  left in the place of `y` is the identity `y`, not `x`. The source keeps
  the object `x`, hangs it where `y` was and detaches `y`
  (lib/red-black-tree.js:181-190), then calls `deleteFixup(x)`. The model
  instead gives `y` the key, links and colour of `x`, re-parents the
  children of `x` to `y`, drops `x` from the arena and runs the fixup
  from `y`. Shape, keys, colours and in-order come out the same. A
  caller that still holds `x`, for instance a node an earlier `search`
  returned, sees that node stay in the tree in the source but not in the
  model.
- RedBlackTree.RedBlackTree.SpliceOut: `y.parent.getLeft()`
  (lib/red-black-tree.js:185) is called just before `x.parent = y.parent`
  (lib/red-black-tree.js:181), not just after. Neither step reads what
  the other writes.
- SplayTree.SplayTree.Remove: states the multiset, the count and the
  found-iff-stored answer but not that the in-order stays ascending.
  `RemoveInternal` keeps order only when the deleted node is `Plain`. In
  the two-children case where the right child has no left child, the
  source copies the key of the left child instead of the successor's
  (lib/splay-tree.js:234-235, src/splay-tree.js:319-320), and order can
  break. The splay before it decides which shape the root has, and the
  contract does not track that.
- LibBinarySearchTree.BinarySearchTree.Remove: order is promised only when
  every node holding the key is `Plain`, for the same reason
  (lib/binary-search-tree.js:190-191).
- Integer width: keys are unbounded integers, and `nodeCount` is an
  unbounded integer. JavaScript numbers are doubles; overflow, `NaN` keys
  and keys of other types are not modelled, other than the binomial
  degree.
