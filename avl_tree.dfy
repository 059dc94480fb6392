/**
 * The tree that the arena encodes, as an algebraic value, and the tree
 * algorithms of src/c-avl.c as functions over it. Every node records the
 * arena slot it occupies (idx) and the height stored in that slot (h), so
 * each function below reads exactly the fields the C code reads and writes
 * exactly those it writes. The arena methods in module ArenaAvl are proved
 * to leave the arena encoding the value these functions compute; modules
 * AvlContents, AvlShape and AvlSlots prove what those values are.
 */
module AvlTree {
  import opened Wrappers
  import KeySeq

  datatype Tree<K> = Nil | Node(left: Tree<K>, idx: nat, key: K, h: nat, right: Tree<K>)

  /** The link a parent stores for this subtree: NULL, or the slot of its root. */
  function Link<K>(t: Tree<K>): Option<nat> {
    if t.Nil? then None else Some(t.idx)
  }

  /** The keys in in-order: the abstract contents of the subtree. */
  function InOrder<K>(t: Tree<K>): seq<K> {
    match t
    case Nil => []
    case Node(l, _, k, _, r) => InOrder(l) + [k] + InOrder(r)
  }

  /** The arena slots the subtree occupies. */
  function Slots<K>(t: Tree<K>): set<nat> {
    match t
    case Nil => {}
    case Node(l, i, _, _, r) => Slots(l) + {i} + Slots(r)
  }

  /** No slot is used by two nodes. */
  ghost predicate UniqueSlots<K>(t: Tree<K>) {
    match t
    case Nil => true
    case Node(l, i, _, _, r) =>
      UniqueSlots(l) && UniqueSlots(r) &&
      i !in Slots(l) && i !in Slots(r) && Slots(l) !! Slots(r)
  }

  /**
   * BST order: every key of a left subtree compares less than the node's
   * key, every key of a right subtree compares greater.
   */
  ghost predicate Ordered<K>(cmp: (K, K) -> int, t: Tree<K>) {
    match t
    case Nil => true
    case Node(l, _, k, _, r) =>
      Ordered(cmp, l) && Ordered(cmp, r) &&
      KeySeq.AllBelow(cmp, InOrder(l), k) && KeySeq.AllAbove(cmp, InOrder(r), k)
  }

  /** _AVL_MAX */
  function Max(a: nat, b: nat): nat {
    if a > b then a else b
  }

  /** _avl_height: the height stored in the node, 0 for NULL. */
  function Height<K>(t: Tree<K>): nat {
    if t.Nil? then 0 else t.h
  }

  /** __avl_balance_factor: stored height of the left child minus that of the right. */
  function BalanceFactor<K>(t: Tree<K>): int {
    if t.Nil? then 0 else Height(t.left) - Height(t.right)
  }

  /** _avl_update_height: recompute the stored height from the children's. */
  function UpdateHeight<K>(t: Tree<K>): Tree<K> {
    if t.Nil? then Nil else t.(h := Max(Height(t.left), Height(t.right)) + 1)
  }

  /** The actual height of the subtree, whatever its nodes store. */
  ghost function Depth<K>(t: Tree<K>): nat {
    match t
    case Nil => 0
    case Node(l, _, _, _, r) => Max(Depth(l), Depth(r)) + 1
  }

  /** Height correctness: every node stores 1 + the larger of its children's heights. */
  ghost predicate HeightsOk<K>(t: Tree<K>) {
    match t
    case Nil => true
    case Node(l, _, _, h, r) => HeightsOk(l) && HeightsOk(r) && h == Max(Height(l), Height(r)) + 1
  }

  /** AVL balance: at every node the children's heights differ by at most one. */
  ghost predicate Balanced<K>(t: Tree<K>) {
    match t
    case Nil => true
    case Node(l, _, _, _, r) => Balanced(l) && Balanced(r) && -1 <= Height(l) - Height(r) <= 1
  }

  /**
   * avl_single_rotate_right: the left child becomes the subtree root and the
   * old root its right child; the old root's height is recomputed, then the
   * new root's.
   */
  function RotateRight<K>(t: Tree<K>): (r: Tree<K>)
    requires t.Node? && t.left.Node?
    ensures r.Node? && r.idx == t.left.idx && r.right.Node? && r.right.idx == t.idx
    ensures InOrder(r) == InOrder(t)
    ensures Slots(r) == Slots(t)
    ensures HeightsOk(t.left.left) && HeightsOk(t.left.right) && HeightsOk(t.right) ==> HeightsOk(r)
  {
    var l := t.left;
    var down := UpdateHeight(Node(l.right, t.idx, t.key, t.h, t.right));
    UpdateHeight(Node(l.left, l.idx, l.key, l.h, down))
  }

  /** avl_single_rotate_left: the mirror image of RotateRight. */
  function RotateLeft<K>(t: Tree<K>): (r: Tree<K>)
    requires t.Node? && t.right.Node?
    ensures r.Node? && r.idx == t.right.idx && r.left.Node? && r.left.idx == t.idx
    ensures InOrder(r) == InOrder(t)
    ensures Slots(r) == Slots(t)
    ensures HeightsOk(t.left) && HeightsOk(t.right.left) && HeightsOk(t.right.right) ==> HeightsOk(r)
  {
    var r := t.right;
    var down := UpdateHeight(Node(t.left, t.idx, t.key, t.h, r.left));
    UpdateHeight(Node(down, r.idx, r.key, r.h, r.right))
  }

  /**
   * The rebalancing step of __avl_set_insert, run on a node after one of its
   * children was replaced: recompute its height, then rotate on the LL, LR,
   * RR or RL pattern. A left-heavy node whose left child is even (and the
   * mirror case) is left alone, as in the source.
   */
  function RebalanceInsert<K>(t: Tree<K>): Tree<K>
    requires t.Node?
  {
    var s := UpdateHeight(t);
    if BalanceFactor(s) > 1 then
      if BalanceFactor(s.left) > 0 then RotateRight(s)
      else if BalanceFactor(s.left) < 0 then RotateRight(s.(left := RotateLeft(s.left)))
      else s
    else if BalanceFactor(s) < -1 then
      if BalanceFactor(s.right) < 0 then RotateLeft(s)
      else if BalanceFactor(s.right) > 0 then RotateLeft(s.(right := RotateRight(s.right)))
      else s
    else s
  }

  /** __avl_set_search: descend by comparator sign; the stored key that compares equal, if reached. */
  function Search<K>(cmp: (K, K) -> int, t: Tree<K>, q: K): Option<K> {
    match t
    case Nil => None
    case Node(l, _, x, _, r) =>
      if cmp(q, x) == 0 then Some(x)
      else if cmp(q, x) < 0 then Search(cmp, l, q)
      else Search(cmp, r, q)
  }

  /**
   * __avl_set_insert: a new leaf in the given free slot at the empty edge the
   * descent reaches, or the new key stored in place of one that compares
   * equal; every node on the way back up is rebalanced.
   */
  function Insert<K>(cmp: (K, K) -> int, t: Tree<K>, k: K, slot: nat): Tree<K> {
    match t
    case Nil => Node(Nil, slot, k, 1, Nil)
    case Node(l, i, x, h, r) =>
      if cmp(k, x) == 0 then Node(l, i, k, h, r)
      else if cmp(k, x) < 0 then RebalanceInsert(Node(Insert(cmp, l, k, slot), i, x, h, r))
      else RebalanceInsert(Node(l, i, x, h, Insert(cmp, r, k, slot)))
  }

  /** The key the leftmost-descent loop of __avl_set_delete stops at. */
  function MinKey<K>(t: Tree<K>): K
    requires t.Node?
  {
    if t.left.Nil? then t.key else MinKey(t.left)
  }

  /** The key the rightmost-descent loop of __avl_set_delete stops at. */
  function MaxKey<K>(t: Tree<K>): K
    requires t.Node?
  {
    if t.right.Nil? then t.key else MaxKey(t.right)
  }

  /**
   * The balance check of __avl_set_delete after deleting from the left child.
   * As written (standard == false) a right child with balance factor 0 gets
   * no rotation; standard == true rotates left in that case, as AVL deletion
   * requires.
   */
  function RebalanceLeftShrunk<K>(t: Tree<K>, standard: bool): Tree<K>
    requires t.Node?
  {
    if BalanceFactor(t) < -1 then
      if BalanceFactor(t.right) < 0 || (standard && BalanceFactor(t.right) == 0) then RotateLeft(t)
      else if BalanceFactor(t.right) > 0 then RotateLeft(t.(right := RotateRight(t.right)))
      else t
    else t
  }

  /** The mirror image of RebalanceLeftShrunk, after deleting from the right child. */
  function RebalanceRightShrunk<K>(t: Tree<K>, standard: bool): Tree<K>
    requires t.Node?
  {
    if BalanceFactor(t) > 1 then
      if BalanceFactor(t.left) > 0 || (standard && BalanceFactor(t.left) == 0) then RotateRight(t)
      else if BalanceFactor(t.left) < 0 then RotateRight(t.(left := RotateLeft(t.left)))
      else t
    else t
  }

  /** The new subtree after a deletion, and the slot it returned to the free stack. */
  datatype Removal<K> = Removal(tree: Tree<K>, freed: Option<nat>)

  /**
   * __avl_set_delete. A target with two children keeps its slot: it takes
   * the key of its successor (right subtree strictly taller) or predecessor
   * (otherwise), which is then deleted from that subtree. A target with at
   * most one child is spliced out and its slot freed. The final height
   * update of every frame is the UpdateHeight around each result.
   */
  function Delete<K>(cmp: (K, K) -> int, t: Tree<K>, q: K, standard: bool): Removal<K> {
    match t
    case Nil => Removal(Nil, None)
    case Node(l, i, x, h, r) =>
      if cmp(q, x) < 0 then
        var d := Delete(cmp, l, q, standard);
        Removal(UpdateHeight(RebalanceLeftShrunk(Node(d.tree, i, x, h, r), standard)), d.freed)
      else if cmp(q, x) > 0 then
        var d := Delete(cmp, r, q, standard);
        Removal(UpdateHeight(RebalanceRightShrunk(Node(l, i, x, h, d.tree), standard)), d.freed)
      else if l.Node? && r.Node? then
        if BalanceFactor(t) < 0 then
          var d := Delete(cmp, r, MinKey(r), standard);
          Removal(UpdateHeight(Node(l, i, MinKey(r), h, d.tree)), d.freed)
        else
          var d := Delete(cmp, l, MaxKey(l), standard);
          Removal(UpdateHeight(Node(d.tree, i, MaxKey(l), h, r)), d.freed)
      else
        Removal(UpdateHeight(if l.Nil? then r else l), Some(i))
  }

  /** Deleting a key below the node's key happens in the left subtree. */
  lemma DeleteGoesLeft<K>(cmp: (K, K) -> int, t: Tree<K>, q: K, standard: bool)
    requires t.Node? && cmp(q, t.key) < 0
    ensures Delete(cmp, t, q, standard) ==
      Removal(UpdateHeight(RebalanceLeftShrunk(Node(Delete(cmp, t.left, q, standard).tree, t.idx, t.key, t.h, t.right), standard)),
              Delete(cmp, t.left, q, standard).freed)
    ensures Search(cmp, t, q) == Search(cmp, t.left, q)
  {
  }

  /** Deleting a key above the node's key happens in the right subtree. */
  lemma DeleteGoesRight<K>(cmp: (K, K) -> int, t: Tree<K>, q: K, standard: bool)
    requires t.Node? && cmp(q, t.key) > 0
    ensures Delete(cmp, t, q, standard) ==
      Removal(UpdateHeight(RebalanceRightShrunk(Node(t.left, t.idx, t.key, t.h, Delete(cmp, t.right, q, standard).tree), standard)),
              Delete(cmp, t.right, q, standard).freed)
    ensures Search(cmp, t, q) == Search(cmp, t.right, q)
  {
  }
}
