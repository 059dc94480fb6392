/**
 * Slot accounting of the tree algorithms: which arena slots a subtree
 * occupies before and after each operation. Insert takes exactly the free
 * slot it is given when it adds a node; Delete frees exactly one slot of
 * the tree when it removes a node; rotations and rebalancing move no node
 * to another slot.
 */
module AvlSlots {
  import opened Wrappers
  import opened AvlTree

  lemma UpdateHeightKeeps<K>(t: Tree<K>)
    ensures Slots(UpdateHeight(t)) == Slots(t) && Link(UpdateHeight(t)) == Link(t)
    ensures UniqueSlots(UpdateHeight(t)) == UniqueSlots(t)
    ensures InOrder(UpdateHeight(t)) == InOrder(t)
  {
  }

  lemma RotateRightUnique<K>(t: Tree<K>)
    requires t.Node? && t.left.Node? && UniqueSlots(t)
    ensures UniqueSlots(RotateRight(t))
  {
    var l := t.left;
    var down := Node(l.right, t.idx, t.key, t.h, t.right);
    UpdateHeightKeeps(down);
    UpdateHeightKeeps(Node(l.left, l.idx, l.key, l.h, UpdateHeight(down)));
  }

  lemma RotateLeftUnique<K>(t: Tree<K>)
    requires t.Node? && t.right.Node? && UniqueSlots(t)
    ensures UniqueSlots(RotateLeft(t))
  {
    var r := t.right;
    var down := Node(t.left, t.idx, t.key, t.h, r.left);
    UpdateHeightKeeps(down);
    UpdateHeightKeeps(Node(UpdateHeight(down), r.idx, r.key, r.h, r.right));
  }

  /** The insert rebalancing step keeps the slots, their uniqueness and the in-order keys. */
  lemma RebalanceInsertKeeps<K>(t: Tree<K>)
    requires t.Node?
    ensures Slots(RebalanceInsert(t)) == Slots(t) && InOrder(RebalanceInsert(t)) == InOrder(t)
    ensures UniqueSlots(t) ==> UniqueSlots(RebalanceInsert(t))
  {
    var s := UpdateHeight(t);
    UpdateHeightKeeps(t);
    if UniqueSlots(t) {
      if BalanceFactor(s) > 1 {
        if BalanceFactor(s.left) > 0 {
          RotateRightUnique(s);
        } else if BalanceFactor(s.left) < 0 {
          RotateLeftUnique(s.left);
          RotateRightUnique(s.(left := RotateLeft(s.left)));
        }
      } else if BalanceFactor(s) < -1 {
        if BalanceFactor(s.right) < 0 {
          RotateLeftUnique(s);
        } else if BalanceFactor(s.right) > 0 {
          RotateRightUnique(s.right);
          RotateLeftUnique(s.(right := RotateRight(s.right)));
        }
      }
    }
  }

  /** The delete rebalancing steps keep the slots, their uniqueness and the in-order keys. */
  lemma RebalanceShrunkKeeps<K>(t: Tree<K>, standard: bool)
    requires t.Node?
    ensures Slots(RebalanceLeftShrunk(t, standard)) == Slots(t)
    ensures InOrder(RebalanceLeftShrunk(t, standard)) == InOrder(t)
    ensures UniqueSlots(t) ==> UniqueSlots(RebalanceLeftShrunk(t, standard))
    ensures Slots(RebalanceRightShrunk(t, standard)) == Slots(t)
    ensures InOrder(RebalanceRightShrunk(t, standard)) == InOrder(t)
    ensures UniqueSlots(t) ==> UniqueSlots(RebalanceRightShrunk(t, standard))
  {
    if UniqueSlots(t) {
      if BalanceFactor(t) < -1 {
        if BalanceFactor(t.right) < 0 || (standard && BalanceFactor(t.right) == 0) {
          RotateLeftUnique(t);
        } else if BalanceFactor(t.right) > 0 {
          RotateRightUnique(t.right);
          RotateLeftUnique(t.(right := RotateRight(t.right)));
        }
      }
      if BalanceFactor(t) > 1 {
        if BalanceFactor(t.left) > 0 || (standard && BalanceFactor(t.left) == 0) {
          RotateRightUnique(t);
        } else if BalanceFactor(t.left) < 0 {
          RotateLeftUnique(t.left);
          RotateRightUnique(t.(left := RotateLeft(t.left)));
        }
      }
    }
  }

  /**
   * Insert adds the given free slot to the tree exactly when the key was not
   * found, and otherwise uses no new slot; a slot that was free stays unique.
   */
  lemma {:induction false} InsertSlots<K>(cmp: (K, K) -> int, t: Tree<K>, k: K, slot: nat)
    ensures Slots(Insert(cmp, t, k, slot)) == Slots(t) + (if Search(cmp, t, k).None? then {slot} else {})
    ensures UniqueSlots(t) && slot !in Slots(t) ==> UniqueSlots(Insert(cmp, t, k, slot))
    ensures Insert(cmp, t, k, slot).Node?
  {
    match t
    case Nil =>
    case Node(l, i, x, h, r) =>
      if cmp(k, x) < 0 {
        InsertSlots(cmp, l, k, slot);
        RebalanceInsertKeeps(Node(Insert(cmp, l, k, slot), i, x, h, r));
      } else if cmp(k, x) > 0 {
        InsertSlots(cmp, r, k, slot);
        RebalanceInsertKeeps(Node(l, i, x, h, Insert(cmp, r, k, slot)));
      }
  }

  /**
   * What Delete does to the slots: it frees a slot only when it finds the
   * key, that slot belonged to the tree, and it is the only slot the tree
   * loses; the slots left stay unique.
   */
  ghost predicate FreesOneSlot<K>(cmp: (K, K) -> int, t: Tree<K>, q: K, d: Removal<K>) {
    UniqueSlots(d.tree) &&
    (d.freed.Some? ==> Search(cmp, t, q).Some? && d.freed.value in Slots(t) &&
                       Slots(d.tree) == Slots(t) - {d.freed.value}) &&
    (d.freed.None? ==> Slots(d.tree) == Slots(t))
  }

  /**
   * Delete frees a slot only when it finds the key, that slot belonged to
   * the tree, and it is the only slot the tree loses.
   */
  lemma {:induction false} DeleteSlots<K>(cmp: (K, K) -> int, t: Tree<K>, q: K, standard: bool)
    requires UniqueSlots(t)
    ensures var d := Delete(cmp, t, q, standard);
      UniqueSlots(d.tree) &&
      (d.freed.Some? ==> Search(cmp, t, q).Some? && d.freed.value in Slots(t) &&
                         Slots(d.tree) == Slots(t) - {d.freed.value}) &&
      (d.freed.None? ==> Slots(d.tree) == Slots(t))
  {
    match t
    case Nil =>
    case Node(l, i, x, h, r) =>
      if cmp(q, x) < 0 {
        DeleteSlots(cmp, l, q, standard);
        DeleteSlotsLeft(cmp, t, q, standard);
      } else if cmp(q, x) > 0 {
        DeleteSlots(cmp, r, q, standard);
        DeleteSlotsRight(cmp, t, q, standard);
      } else if l.Node? && r.Node? {
        if BalanceFactor(t) < 0 {
          DeleteSlots(cmp, r, MinKey(r), standard);
          DeleteSlotsSuccessor(cmp, t, q, standard);
        } else {
          DeleteSlots(cmp, l, MaxKey(l), standard);
          DeleteSlotsPredecessor(cmp, t, q, standard);
        }
      } else {
        UpdateHeightKeeps(if l.Nil? then r else l);
      }
  }

  lemma DeleteSlotsLeft<K>(cmp: (K, K) -> int, t: Tree<K>, q: K, standard: bool)
    requires t.Node? && UniqueSlots(t) && cmp(q, t.key) < 0
    requires FreesOneSlot(cmp, t.left, q, Delete(cmp, t.left, q, standard))
    ensures FreesOneSlot(cmp, t, q, Delete(cmp, t, q, standard))
  {
    var d := Delete(cmp, t.left, q, standard);
    var s := Node(d.tree, t.idx, t.key, t.h, t.right);
    RebalanceShrunkKeeps(s, standard);
    UpdateHeightKeeps(RebalanceLeftShrunk(s, standard));
    assert Delete(cmp, t, q, standard) == Removal(UpdateHeight(RebalanceLeftShrunk(s, standard)), d.freed);
  }

  lemma DeleteSlotsRight<K>(cmp: (K, K) -> int, t: Tree<K>, q: K, standard: bool)
    requires t.Node? && UniqueSlots(t) && cmp(q, t.key) > 0
    requires FreesOneSlot(cmp, t.right, q, Delete(cmp, t.right, q, standard))
    ensures FreesOneSlot(cmp, t, q, Delete(cmp, t, q, standard))
  {
    var d := Delete(cmp, t.right, q, standard);
    var s := Node(t.left, t.idx, t.key, t.h, d.tree);
    RebalanceShrunkKeeps(s, standard);
    UpdateHeightKeeps(RebalanceRightShrunk(s, standard));
    assert Delete(cmp, t, q, standard) == Removal(UpdateHeight(RebalanceRightShrunk(s, standard)), d.freed);
  }

  lemma DeleteSlotsSuccessor<K>(cmp: (K, K) -> int, t: Tree<K>, q: K, standard: bool)
    requires t.Node? && t.left.Node? && t.right.Node? && UniqueSlots(t)
    requires cmp(q, t.key) == 0 && BalanceFactor(t) < 0
    requires FreesOneSlot(cmp, t.right, MinKey(t.right), Delete(cmp, t.right, MinKey(t.right), standard))
    ensures FreesOneSlot(cmp, t, q, Delete(cmp, t, q, standard))
  {
    var d := Delete(cmp, t.right, MinKey(t.right), standard);
    var u := Node(t.left, t.idx, MinKey(t.right), t.h, d.tree);
    UpdateHeightKeeps(u);
    assert Delete(cmp, t, q, standard) == Removal(UpdateHeight(u), d.freed);
  }

  lemma DeleteSlotsPredecessor<K>(cmp: (K, K) -> int, t: Tree<K>, q: K, standard: bool)
    requires t.Node? && t.left.Node? && t.right.Node? && UniqueSlots(t)
    requires cmp(q, t.key) == 0 && BalanceFactor(t) >= 0
    requires FreesOneSlot(cmp, t.left, MaxKey(t.left), Delete(cmp, t.left, MaxKey(t.left), standard))
    ensures FreesOneSlot(cmp, t, q, Delete(cmp, t, q, standard))
  {
    var d := Delete(cmp, t.left, MaxKey(t.left), standard);
    var u := Node(d.tree, t.idx, MaxKey(t.left), t.h, t.right);
    UpdateHeightKeeps(u);
    assert Delete(cmp, t, q, standard) == Removal(UpdateHeight(u), d.freed);
  }

  /** With unique slots, the tree occupies exactly one slot per key. */
  lemma {:induction false} SlotCount<K>(t: Tree<K>)
    requires UniqueSlots(t)
    ensures |Slots(t)| == |InOrder(t)|
  {
    match t
    case Nil =>
    case Node(l, i, _, _, r) =>
      SlotCount(l);
      SlotCount(r);
      assert |Slots(l) + Slots(r)| == |Slots(l)| + |Slots(r)|;
      assert Slots(t) == (Slots(l) + Slots(r)) + {i};
  }
}
