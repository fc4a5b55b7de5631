/**
 * The red-black tree node: a binary tree node with a colour whose missing
 * children are created on demand as keyless "nil" sentinels.
 *
 * In the arena a red-black node is a `Cell<Option<int>>`: `None` is the
 * undefined key of a nil sentinel. The colours live in a map of their own
 * beside the cells.
 */
module RedBlackTreeNode {
  import opened Common
  import opened Arena

  datatype Color = Red | Black

  /** The colour a new node starts with: black exactly for a nil sentinel. */
  function NewColor(key: Option<int>): (c: Color)
    ensures c == Black <==> key.None?
    ensures c == Red <==> key.Some?
  {
    if key.None? then Black else Red
  }

  /**
   * The colour of node `i` in the colour map `col`. Every node is given its
   * colour when it is created; an id without one reads as black.
   */
  function Hue(col: map<nat, Color>, i: nat): Color
  {
    if i in col then col[i] else Black
  }

  /**
   * The keys `c` left after taking out the key `k` of a node (none for a
   * sentinel) and the keys `lost` with the subtree below a real sentinel
   * slot: between them they account for the keys `c0` there were.
   */
  ghost predicate Tally(c: seq<int>, lost: multiset<int>, k: Option<int>, c0: seq<int>)
  {
    multiset(c) + lost + (if k.Some? then multiset{k.value} else multiset{}) == multiset(c0)
  }

  /** `c'` is `c` with the key `k`, if there is one, taken out at rank `t`. */
  ghost predicate Without(c: seq<int>, k: Option<int>, t: nat, c': seq<int>)
  {
    if k.Some? then t < |c| && c[t] == k.value && c' == c[..t] + c[t + 1..] else c' == c
  }

  /** Every node of `m` other than `y` has the same colour in `col` as in `col0`. */
  ghost predicate HuesKept(m: map<nat, Cell<Option<int>>>, y: nat, col0: map<nat, Color>, col: map<nat, Color>)
  {
    forall i | i in m && i != y :: Hue(col, i) == Hue(col0, i)
  }

  /** `isNilNode`: the node has no key. */
  predicate IsNil(c: Cell<Option<int>>)
  {
    c.key.None?
  }

  /** The sentinel `getLeft`/`getRight` create below `p`: no key, no children, parent `p`. */
  function Nil(p: nat): (c: Cell<Option<int>>)
    ensures IsNil(c) && c.left.None? && c.right.None? && c.parent == Some(p)
  {
    Cell(None, None, None, Some(p))
  }

  /** A node built with a key and no parent, as `add` builds a new root. */
  function Leaf(key: int): (c: Cell<Option<int>>)
    ensures !IsNil(c) && c.key == Some(key) && c.left.None? && c.right.None? && c.parent.None?
  {
    Cell(Some(key), None, None, None)
  }
}
