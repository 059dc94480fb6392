/**
 * Three places where src/c-avl.c does not do what it evidently means to do.
 * Each is modelled here as written and shown wrong on a concrete input;
 * the rest of the model uses the corrected behaviour:
 *  - avl_set_clear destructs slots 0 .. size-1 and empties the free stack
 *    (corrected: ArenaAvl.AvlSet.Clear);
 *  - __avl_set_reserve_one pushes the words past the end of the old stack
 *    instead of the new indices (corrected: ArenaAvl.GrowStack);
 *  - __avl_set_delete leaves a node with balance factor -2 or 2 alone when
 *    its taller child is even (corrected: AvlTree.Delete with standard set,
 *    proved balanced by AvlShape.DeleteAvl).
 */
module Findings {
  import opened Wrappers
  import opened Comparator
  import opened AvlTree
  import opened Arena
  import opened ArenaKeys
  import opened FreeSlots
  import opened AvlSlots
  import opened AvlContents
  import opened AvlShape
  import opened ArenaAvl

  /** Integer keys in their usual order. */
  function IntCompare(a: int, b: int): int {
    if a < b then -1 else if a > b then 1 else 0
  }

  lemma IntCompareIsComparator()
    ensures IsComparator(IntCompare)
  {
  }

  /**
   * The tree left by inserting 1 and then 2 into a new set, which takes
   * slots 0 and 1 from the free stack, and then deleting 1, which frees
   * slot 0.
   */
  function InsertTwoDeleteFirst(): Tree<int> {
    Delete(IntCompare, Insert(IntCompare, Insert(IntCompare, Nil, 1, 0), 2, 1), 1, true).tree
  }

  /**
   * On that set avl_set_clear as written destructs the key of slot 0 only,
   * which is free and holds none, while the one live key, 2, sits in slot 1
   * and is never handed to the destructor.
   */
  lemma ClearAsWrittenSkipsLiveKey(a: seq<Element<int>>)
    requires Stored(a, InsertTwoDeleteFirst()) && FreeZeroed(a, Slots(InsertTwoDeleteFirst()))
    ensures InsertTwoDeleteFirst() == Node(Nil, 1, 2, 1, Nil)
    ensures |InOrder(InsertTwoDeleteFirst())| == 1 && KeysIn(a, Below(1), 1) == []
    ensures multiset(KeysIn(a, Slots(InsertTwoDeleteFirst()), |a|)) == multiset{2}
  {
    var t := InsertTwoDeleteFirst();
    assert t == Node(Nil, 1, 2, 1, Nil);
    assert a[0] == Zeroed();
    assert KeysIn(a, Below(1), 1) == KeysIn(a, Below(1), 0) + KeyAt(a, Below(1), 0);
    KeysInTree(a, t);
  }

  /**
   * After avl_set_clear as written the free stack is empty, so the pop
   * with which the next insertion takes its slot fails, whatever the set
   * held before.
   */
  method ClearAsWrittenThenPop<K(!new)>(s: AvlSet<K>) returns (r: int)
    requires s.Valid()
    modifies s, s.tree, s.slots
    ensures r == -1
  {
    s.ClearAsWritten();
    var e;
    r, e := s.slots.Pop();
  }

  /** After the corrected clear the next insertion takes slot 0, as after creation. */
  method ClearThenPop<K(!new)>(s: AvlSet<K>) returns (r: int, e: nat)
    requires s.Valid()
    modifies s, s.tree, s.slots, s.slots.items
    ensures r == 0 && e == 0
  {
    s.Clear();
    ghost var c := s.slots.Contents();
    assert c[|c| - 1] == 0;
    r, e := s.slots.Pop();
    assert c == s.slots.Contents() + [e];
  }

  /**
   * The free stack __avl_set_reserve_one builds as written: the old free
   * indices, then for each j from the old capacity up to the new one the
   * word at position j of the old stack, which lies past the end of that
   * stack; beyond(j) stands for whatever that memory holds.
   */
  function GrowPushesAsWritten(free: seq<nat>, oldSize: nat, n: nat, beyond: nat -> nat): seq<nat>
    requires oldSize <= n
  {
    free + seq(n - oldSize, p requires 0 <= p => beyond(oldSize + p))
  }

  /**
   * Whenever the words past the old stack hold old slot numbers (zeros
   * included), the stack built as written holds old slots only: none of
   * the new slots oldSize .. n-1 ever becomes free, and if the arena grew
   * at all, the stack and the live slots no longer partition it.
   */
  lemma GrowAsWrittenLosesNewSlots(free: seq<nat>, live: set<nat>, oldSize: nat, n: nat, beyond: nat -> nat)
    requires oldSize <= n
    requires forall p :: 0 <= p < |free| ==> free[p] < oldSize
    requires forall j :: oldSize <= j < n ==> beyond(j) < oldSize
    ensures forall j :: oldSize <= j < n ==> j !in GrowPushesAsWritten(free, oldSize, n, beyond)
    ensures oldSize < n && (forall j :: j in live ==> j < oldSize) ==>
      !Partition(GrowPushesAsWritten(free, oldSize, n, beyond), live, n)
  {
    var r := GrowPushesAsWritten(free, oldSize, n, beyond);
    forall p | 0 <= p < |r| ensures r[p] < oldSize {
      if p >= |free| {
        assert r[p] == beyond(oldSize + (p - |free|));
      }
    }
    if oldSize < n && (forall j :: j in live ==> j < oldSize) {
      assert oldSize !in live && oldSize !in r;
    }
  }

  /**
   * A full set of the default capacity has an empty free stack and grows
   * to 8 + 4 + 8 = 20 slots. If the memory past the old stack reads as
   * zeros, the new stack holds slot 0, which is live, twelve times, and
   * none of the new slots 8 .. 19; the corrected stack is a partition.
   */
  lemma GrowAsWrittenBreaksPartition()
    ensures !Partition(GrowPushesAsWritten([], 8, 20, _ => 0), Below(8), 20)
    ensures Partition([] + Range(8, 20), Below(8), 20)
  {
    var r := GrowPushesAsWritten([], 8, 20, _ => 0);
    assert r[0] == 0 && 0 in Below(8);
    assert Partition([], Below(8), 8);
    PartitionGrow([], Below(8), 8, 20);
  }

  /**
   * A tree whose root leans right by one and whose right child is even:
   * 2 in slot 0 over 1 in slot 1 and over 4 in slot 2, which holds 3 in
   * slot 3 and 5 in slot 4.
   */
  function EvenSibling(): Tree<int> {
    Node(Node(Nil, 1, 1, 1, Nil), 0, 2, 3, Node(Node(Nil, 3, 3, 1, Nil), 2, 4, 2, Node(Nil, 4, 5, 1, Nil)))
  }

  /** Inserting 2, 1, 4, 3, 5 into a new set builds that tree. */
  lemma EvenSiblingReachable()
    ensures Insert(IntCompare, Insert(IntCompare, Insert(IntCompare,
              Insert(IntCompare, Insert(IntCompare, Nil, 2, 0), 1, 1), 4, 2), 3, 3), 5, 4) == EvenSibling()
  {
    var t2 := Insert(IntCompare, Insert(IntCompare, Insert(IntCompare, Nil, 2, 0), 1, 1), 4, 2);
    assert t2 == Node(Node(Nil, 1, 1, 1, Nil), 0, 2, 2, Node(Nil, 2, 4, 1, Nil));
    var t3 := Insert(IntCompare, t2, 3, 3);
    assert t3 == Node(Node(Nil, 1, 1, 1, Nil), 0, 2, 3, Node(Node(Nil, 3, 3, 1, Nil), 2, 4, 2, Nil));
  }

  /** Insertion into a well-formed tree, with a slot it does not use, gives a well-formed tree. */
  lemma InsertWellFormed(t: Tree<int>, k: int, slot: nat, n: nat)
    requires WellFormed(IntCompare, t) && Slots(t) <= Below(n) && slot == n
    ensures WellFormed(IntCompare, Insert(IntCompare, t, k, slot))
    ensures Slots(Insert(IntCompare, t, k, slot)) <= Below(n + 1)
  {
    IntCompareIsComparator();
    InsertSlots(IntCompare, t, k, slot);
    InsertOrdered(IntCompare, t, k, slot);
    InsertAvl(IntCompare, t, k, slot);
  }

  /** That tree is a well-formed AVL tree, being what insertion builds. */
  lemma EvenSiblingWellFormed()
    ensures WellFormed(IntCompare, EvenSibling()) && BalanceFactor(EvenSibling().right) == 0
  {
    EvenSiblingReachable();
    var t1 := Insert(IntCompare, Nil, 2, 0);
    InsertWellFormed(Nil, 2, 0, 0);
    var t2 := Insert(IntCompare, t1, 1, 1);
    InsertWellFormed(t1, 1, 1, 1);
    var t3 := Insert(IntCompare, t2, 4, 2);
    InsertWellFormed(t2, 4, 2, 2);
    var t4 := Insert(IntCompare, t3, 3, 3);
    InsertWellFormed(t3, 3, 3, 3);
    InsertWellFormed(t4, 5, 4, 4);
  }

  /**
   * Deleting 1 from that tree leaves the root with balance factor -2: the
   * source rotates only when the right child leans one way or the other,
   * so its result is not balanced, though it still holds the other keys in
   * order.
   */
  lemma DeleteAsWrittenUnbalances()
    ensures !Balanced(Delete(IntCompare, EvenSibling(), 1, false).tree)
    ensures InOrder(Delete(IntCompare, EvenSibling(), 1, false).tree) == [2, 3, 4, 5]
  {
    var r := EvenSibling().right;
    assert Delete(IntCompare, EvenSibling().left, 1, false).tree == Nil;
    assert Delete(IntCompare, EvenSibling(), 1, false).tree == Node(Nil, 0, 2, 3, r);
    assert InOrder(r) == [3, 4, 5];
  }

  /** With the rotation for the even case the same deletion leaves a balanced tree. */
  lemma DeleteCorrectedBalances()
    ensures Delete(IntCompare, EvenSibling(), 1, true).tree ==
      Node(Node(Nil, 0, 2, 2, Node(Nil, 3, 3, 1, Nil)), 2, 4, 3, Node(Nil, 4, 5, 1, Nil))
    ensures Balanced(Delete(IntCompare, EvenSibling(), 1, true).tree)
  {
    var t := EvenSibling();
    assert Delete(IntCompare, t.left, 1, true).tree == Nil;
    assert RotateLeft(Node(Nil, 0, 2, 3, t.right)) ==
      Node(Node(Nil, 0, 2, 2, Node(Nil, 3, 3, 1, Nil)), 2, 4, 3, Node(Nil, 4, 5, 1, Nil));
  }
}
