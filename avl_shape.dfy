/**
 * Heights and balance. Insert keeps a height-correct AVL tree a
 * height-correct AVL tree; Delete keeps heights correct in both of its
 * variants and keeps AVL balance in the standard variant.
 */
module AvlShape {
  import opened Wrappers
  import opened AvlTree

  /** On a height-correct tree the stored heights are the actual heights. */
  lemma {:induction false} HeightIsDepth<K>(t: Tree<K>)
    requires HeightsOk(t)
    ensures Height(t) == Depth(t)
  {
    match t
    case Nil =>
    case Node(l, _, _, _, r) =>
      HeightIsDepth(l);
      HeightIsDepth(r);
  }

  /** Recomputing the height of a height-correct node changes nothing. */
  lemma UpdateHeightOk<K>(t: Tree<K>)
    requires HeightsOk(t)
    ensures UpdateHeight(t) == t
  {
  }

  lemma RotateRightHeights<K>(t: Tree<K>)
    requires t.Node? && t.left.Node?
    ensures RotateRight(t).left == t.left.left
    ensures RotateRight(t).right.left == t.left.right && RotateRight(t).right.right == t.right
    ensures Height(RotateRight(t).right) == Max(Height(t.left.right), Height(t.right)) + 1
    ensures Height(RotateRight(t)) == Max(Height(t.left.left), Height(RotateRight(t).right)) + 1
  {
  }

  lemma RotateLeftHeights<K>(t: Tree<K>)
    requires t.Node? && t.right.Node?
    ensures RotateLeft(t).right == t.right.right
    ensures RotateLeft(t).left.right == t.right.left && RotateLeft(t).left.left == t.left
    ensures Height(RotateLeft(t).left) == Max(Height(t.left), Height(t.right.left)) + 1
    ensures Height(RotateLeft(t)) == Max(Height(RotateLeft(t).left), Height(t.right.right)) + 1
  {
  }

  /**
   * The rebalancing of a node whose left subtree was replaced by a subtree
   * at most one taller (oldH is the replaced subtree's height) that, if it
   * grew from a non-empty tree, is not even.
   */
  lemma RebalanceAfterLeftInsert<K>(lt: Tree<K>, i: nat, x: K, h: nat, r: Tree<K>, oldH: nat)
    requires lt.Node? && Balanced(lt) && HeightsOk(lt) && Balanced(r) && HeightsOk(r)
    requires oldH <= Height(lt) <= oldH + 1 && -1 <= oldH - Height(r) <= 1
    requires Height(lt) == oldH + 1 && oldH > 0 ==> BalanceFactor(lt) != 0
    ensures var u := RebalanceInsert(Node(lt, i, x, h, r));
      Balanced(u) && HeightsOk(u) &&
      Max(oldH, Height(r)) + 1 <= Height(u) <= Max(oldH, Height(r)) + 2 &&
      (Height(u) == Max(oldH, Height(r)) + 2 ==> BalanceFactor(u) != 0)
  {
    var s := UpdateHeight(Node(lt, i, x, h, r));
    if BalanceFactor(s) > 1 {
      if BalanceFactor(lt) > 0 {
        RotateRightRestores(s);
      } else {
        RotateLeftRightRestores(s);
      }
    }
  }

  /** The mirror image of RebalanceAfterLeftInsert. */
  lemma RebalanceAfterRightInsert<K>(l: Tree<K>, i: nat, x: K, h: nat, rt: Tree<K>, oldH: nat)
    requires rt.Node? && Balanced(rt) && HeightsOk(rt) && Balanced(l) && HeightsOk(l)
    requires oldH <= Height(rt) <= oldH + 1 && -1 <= Height(l) - oldH <= 1
    requires Height(rt) == oldH + 1 && oldH > 0 ==> BalanceFactor(rt) != 0
    ensures var u := RebalanceInsert(Node(l, i, x, h, rt));
      Balanced(u) && HeightsOk(u) &&
      Max(Height(l), oldH) + 1 <= Height(u) <= Max(Height(l), oldH) + 2 &&
      (Height(u) == Max(Height(l), oldH) + 2 ==> BalanceFactor(u) != 0)
  {
    var s := UpdateHeight(Node(l, i, x, h, rt));
    if BalanceFactor(s) < -1 {
      if BalanceFactor(rt) < 0 {
        RotateLeftRestores(s);
      } else {
        RotateRightLeftRestores(s);
      }
    }
  }

  /**
   * Insert keeps a height-correct AVL tree height-correct and balanced; the
   * height grows by at most one, and a non-empty tree that grew is not even.
   */
  lemma {:induction false} InsertAvl<K>(cmp: (K, K) -> int, t: Tree<K>, k: K, slot: nat)
    requires Balanced(t) && HeightsOk(t)
    ensures var u := Insert(cmp, t, k, slot);
      Balanced(u) && HeightsOk(u) && Height(t) <= Height(u) <= Height(t) + 1 &&
      (t.Node? && Height(u) == Height(t) + 1 ==> BalanceFactor(u) != 0)
  {
    match t
    case Nil =>
    case Node(l, i, x, h, r) =>
      if cmp(k, x) < 0 {
        InsertAvl(cmp, l, k, slot);
        RebalanceAfterLeftInsert(Insert(cmp, l, k, slot), i, x, h, r, Height(l));
      } else if cmp(k, x) > 0 {
        InsertAvl(cmp, r, k, slot);
        RebalanceAfterRightInsert(l, i, x, h, Insert(cmp, r, k, slot), Height(r));
      }
  }

  /**
   * In Insert on an AVL tree, a node that becomes left-heavy by two always
   * has a left child that is not even, so the case the rebalancing step of
   * the source leaves alone never arises; likewise on the right.
   */
  lemma InsertNeverEvenChild<K>(cmp: (K, K) -> int, t: Tree<K>, k: K, slot: nat)
    requires Balanced(t) && HeightsOk(t) && t.Node?
    ensures cmp(k, t.key) < 0 ==>
      var s := UpdateHeight(t.(left := Insert(cmp, t.left, k, slot)));
      BalanceFactor(s) > 1 ==> BalanceFactor(s.left) != 0
    ensures cmp(k, t.key) > 0 ==>
      var s := UpdateHeight(t.(right := Insert(cmp, t.right, k, slot)));
      BalanceFactor(s) < -1 ==> BalanceFactor(s.right) != 0
  {
    InsertAvl(cmp, t.left, k, slot);
    InsertAvl(cmp, t.right, k, slot);
  }

  /**
   * Inserting a key that is already present changes no slot and no height:
   * only the matching node's key is replaced.
   */
  lemma {:induction false} InsertPresentKeepsShape<K>(cmp: (K, K) -> int, t: Tree<K>, k: K, slot: nat)
    requires Balanced(t) && HeightsOk(t) && Search(cmp, t, k).Some?
    ensures SameShape(Insert(cmp, t, k, slot), t)
  {
    match t
    case Node(l, i, x, h, r) =>
      if cmp(k, x) < 0 {
        InsertPresentKeepsShape(cmp, l, k, slot);
        SameShapeHeight(Insert(cmp, l, k, slot), l);
        SameShapeReflexive(r);
      } else if cmp(k, x) > 0 {
        InsertPresentKeepsShape(cmp, r, k, slot);
        SameShapeHeight(Insert(cmp, r, k, slot), r);
        SameShapeReflexive(l);
      } else {
        SameShapeReflexive(l);
        SameShapeReflexive(r);
      }
  }

  /** Two trees with the same slots, links and heights in the same places. */
  ghost predicate SameShape<K>(a: Tree<K>, b: Tree<K>) {
    match a
    case Nil => b.Nil?
    case Node(l, i, _, h, r) =>
      b.Node? && b.idx == i && b.h == h && SameShape(l, b.left) && SameShape(r, b.right)
  }

  lemma {:induction false} SameShapeReflexive<K>(t: Tree<K>)
    ensures SameShape(t, t)
  {
    match t
    case Nil =>
    case Node(l, _, _, _, r) =>
      SameShapeReflexive(l);
      SameShapeReflexive(r);
  }

  lemma {:induction false} SameShapeHeight<K>(a: Tree<K>, b: Tree<K>)
    requires SameShape(a, b)
    ensures Height(a) == Height(b) && Slots(a) == Slots(b) && Balanced(a) == Balanced(b) &&
            HeightsOk(a) == HeightsOk(b)
  {
    match a
    case Nil =>
    case Node(l, _, _, _, r) =>
      SameShapeHeight(l, b.left);
      SameShapeHeight(r, b.right);
  }

  // ---- Delete ----

  /** The shrink rebalancing of either variant yields a height-correct tree from height-correct children. */
  lemma ShrunkHeightsOk<K>(t: Tree<K>, standard: bool)
    requires t.Node? && HeightsOk(t.left) && HeightsOk(t.right)
    ensures HeightsOk(UpdateHeight(RebalanceLeftShrunk(t, standard)))
    ensures HeightsOk(UpdateHeight(RebalanceRightShrunk(t, standard)))
  {
  }

  /** Delete keeps a height-correct tree height-correct, whether or not it rotates on an even sibling. */
  lemma {:induction false} DeleteHeightsOk<K>(cmp: (K, K) -> int, t: Tree<K>, q: K, standard: bool)
    requires HeightsOk(t)
    ensures HeightsOk(Delete(cmp, t, q, standard).tree)
  {
    match t
    case Nil =>
    case Node(l, i, x, h, r) =>
      if cmp(q, x) < 0 {
        DeleteHeightsOk(cmp, l, q, standard);
        ShrunkHeightsOk(Node(Delete(cmp, l, q, standard).tree, i, x, h, r), standard);
      } else if cmp(q, x) > 0 {
        DeleteHeightsOk(cmp, r, q, standard);
        ShrunkHeightsOk(Node(l, i, x, h, Delete(cmp, r, q, standard).tree), standard);
      } else if l.Node? && r.Node? {
        DeleteHeightsOk(cmp, r, MinKey(r), standard);
        DeleteHeightsOk(cmp, l, MaxKey(l), standard);
      }
  }

  /** The rotations for a node whose right subtree is two taller than its left one and does not lean left. */
  lemma RotateLeftRestores<K>(s: Tree<K>)
    requires s.Node? && s.right.Node? && Balanced(s.left) && HeightsOk(s.left)
    requires Balanced(s.right) && HeightsOk(s.right) && Height(s.right) == Height(s.left) + 2
    requires BalanceFactor(s.right) <= 0
    ensures var u := RotateLeft(s);
      Balanced(u) && HeightsOk(u) && Height(s.right) <= Height(u) <= Height(s.right) + 1 &&
      (BalanceFactor(s.right) < 0 ==> Height(u) == Height(s.right))
  {
    RotateLeftHeights(s);
  }

  /** The double rotation for a node whose right subtree is two taller than its left one and leans left. */
  lemma RotateRightLeftRestores<K>(s: Tree<K>)
    requires s.Node? && s.right.Node? && Balanced(s.left) && HeightsOk(s.left)
    requires Balanced(s.right) && HeightsOk(s.right) && Height(s.right) == Height(s.left) + 2
    requires BalanceFactor(s.right) > 0
    ensures s.right.left.Node?
    ensures var u := RotateLeft(s.(right := RotateRight(s.right)));
      Balanced(u) && HeightsOk(u) && Height(u) == Height(s.right)
  {
    RotateRightHeights(s.right);
    RotateLeftHeights(s.(right := RotateRight(s.right)));
  }

  /** The mirror image of RotateLeftRestores. */
  lemma RotateRightRestores<K>(s: Tree<K>)
    requires s.Node? && s.left.Node? && Balanced(s.right) && HeightsOk(s.right)
    requires Balanced(s.left) && HeightsOk(s.left) && Height(s.left) == Height(s.right) + 2
    requires BalanceFactor(s.left) >= 0
    ensures var u := RotateRight(s);
      Balanced(u) && HeightsOk(u) && Height(s.left) <= Height(u) <= Height(s.left) + 1 &&
      (BalanceFactor(s.left) > 0 ==> Height(u) == Height(s.left))
  {
    RotateRightHeights(s);
  }

  /** The mirror image of RotateRightLeftRestores. */
  lemma RotateLeftRightRestores<K>(s: Tree<K>)
    requires s.Node? && s.left.Node? && Balanced(s.right) && HeightsOk(s.right)
    requires Balanced(s.left) && HeightsOk(s.left) && Height(s.left) == Height(s.right) + 2
    requires BalanceFactor(s.left) < 0
    ensures s.left.right.Node?
    ensures var u := RotateRight(s.(left := RotateLeft(s.left)));
      Balanced(u) && HeightsOk(u) && Height(u) == Height(s.left)
  {
    RotateLeftHeights(s.left);
    RotateRightHeights(s.(left := RotateLeft(s.left)));
  }

  /**
   * The standard rebalancing of a node whose left subtree was replaced by
   * one at most one shorter (oldH is the replaced subtree's height).
   */
  lemma RebalanceAfterLeftDelete<K>(lt: Tree<K>, i: nat, x: K, h: nat, r: Tree<K>, oldH: nat)
    requires Balanced(lt) && HeightsOk(lt) && Balanced(r) && HeightsOk(r)
    requires oldH - 1 <= Height(lt) <= oldH && -1 <= oldH - Height(r) <= 1
    ensures var u := UpdateHeight(RebalanceLeftShrunk(Node(lt, i, x, h, r), true));
      Balanced(u) && HeightsOk(u) && Max(oldH, Height(r)) <= Height(u) <= Max(oldH, Height(r)) + 1
  {
    var s := Node(lt, i, x, h, r);
    if BalanceFactor(s) < -1 {
      if BalanceFactor(r) <= 0 {
        RotateLeftRestores(s);
        UpdateHeightOk(RotateLeft(s));
      } else {
        RotateRightLeftRestores(s);
        UpdateHeightOk(RotateLeft(s.(right := RotateRight(r))));
      }
    }
  }

  /** The mirror image of RebalanceAfterLeftDelete. */
  lemma RebalanceAfterRightDelete<K>(l: Tree<K>, i: nat, x: K, h: nat, rt: Tree<K>, oldH: nat)
    requires Balanced(rt) && HeightsOk(rt) && Balanced(l) && HeightsOk(l)
    requires oldH - 1 <= Height(rt) <= oldH && -1 <= Height(l) - oldH <= 1
    ensures var u := UpdateHeight(RebalanceRightShrunk(Node(l, i, x, h, rt), true));
      Balanced(u) && HeightsOk(u) && Max(Height(l), oldH) <= Height(u) <= Max(Height(l), oldH) + 1
  {
    var s := Node(l, i, x, h, rt);
    if BalanceFactor(s) > 1 {
      if BalanceFactor(l) >= 0 {
        RotateRightRestores(s);
        UpdateHeightOk(RotateRight(s));
      } else {
        RotateLeftRightRestores(s);
        UpdateHeightOk(RotateRight(s.(left := RotateLeft(l))));
      }
    }
  }

  /**
   * Standard Delete keeps a height-correct AVL tree height-correct and
   * balanced, and lowers its height by at most one. The two-child case
   * needs no rotation at its own node because it deletes from the taller
   * side (the left one when both are equal).
   */
  lemma {:induction false} DeleteAvl<K>(cmp: (K, K) -> int, t: Tree<K>, q: K)
    requires Balanced(t) && HeightsOk(t)
    ensures var u := Delete(cmp, t, q, true).tree;
      Balanced(u) && HeightsOk(u) && Height(t) - 1 <= Height(u) <= Height(t)
  {
    match t
    case Nil =>
    case Node(l, i, x, h, r) =>
      if cmp(q, x) < 0 {
        DeleteAvl(cmp, l, q);
        RebalanceAfterLeftDelete(Delete(cmp, l, q, true).tree, i, x, h, r, Height(l));
      } else if cmp(q, x) > 0 {
        DeleteAvl(cmp, r, q);
        RebalanceAfterRightDelete(l, i, x, h, Delete(cmp, r, q, true).tree, Height(r));
      } else if l.Node? && r.Node? {
        if BalanceFactor(t) < 0 {
          DeleteAvl(cmp, r, MinKey(r));
        } else {
          DeleteAvl(cmp, l, MaxKey(l));
        }
      } else {
        UpdateHeightOk(if l.Nil? then r else l);
      }
  }

  /**
   * A node with two children that holds the deleted key keeps its slot and
   * its balance factor stays within one although that frame never rotates:
   * the successor is taken from a strictly taller right subtree, the
   * predecessor otherwise, and either subtree loses at most one level.
   */
  lemma HitNeedsNoRotation<K>(cmp: (K, K) -> int, t: Tree<K>, q: K)
    requires Balanced(t) && HeightsOk(t) && t.Node? && t.left.Node? && t.right.Node?
    requires cmp(q, t.key) == 0
    ensures var u := Delete(cmp, t, q, true).tree;
      u.Node? && u.idx == t.idx && -1 <= BalanceFactor(u) <= 1
  {
    if BalanceFactor(t) < 0 {
      DeleteAvl(cmp, t.right, MinKey(t.right));
    } else {
      DeleteAvl(cmp, t.left, MaxKey(t.left));
    }
  }

  /**
   * Deleting a key that is absent from a height-correct AVL tree returns the
   * same tree, so the root slot needs no update.
   */
  lemma {:induction false} DeleteAbsentUnchanged<K>(cmp: (K, K) -> int, t: Tree<K>, q: K, standard: bool)
    requires Balanced(t) && HeightsOk(t) && Search(cmp, t, q).None?
    ensures Delete(cmp, t, q, standard) == Removal(t, None)
  {
    match t
    case Nil =>
    case Node(l, i, x, h, r) =>
      BalancedNodeFixed(t, standard);
      if cmp(q, x) < 0 {
        DeleteAbsentUnchanged(cmp, l, q, standard);
        assert Node(Delete(cmp, l, q, standard).tree, i, x, h, r) == t;
      } else {
        DeleteAbsentUnchanged(cmp, r, q, standard);
        assert Node(l, i, x, h, Delete(cmp, r, q, standard).tree) == t;
      }
  }

  /** A balanced, height-correct node is a fixed point of the height update and of both shrink rebalancings. */
  lemma BalancedNodeFixed<K>(t: Tree<K>, standard: bool)
    requires t.Node? && Balanced(t) && HeightsOk(t)
    ensures UpdateHeight(t) == t
    ensures RebalanceLeftShrunk(t, standard) == t && RebalanceRightShrunk(t, standard) == t
  {
  }
}
