/**
 * What the tree algorithms do to the set of keys: on an ordered tree,
 * Search, Insert and Delete agree with the reference operations on the
 * sorted in-order key sequence (module KeySeq), and keep the tree ordered.
 */
module AvlContents {
  import opened Wrappers
  import opened Comparator
  import KeySeq
  import opened AvlTree
  import opened AvlSlots

  /** The BST order of the tree is exactly sortedness of its in-order keys. */
  lemma {:induction false} OrderedIffSorted<K(!new)>(cmp: (K, K) -> int, t: Tree<K>)
    requires IsComparator(cmp)
    ensures Ordered(cmp, t) <==> KeySeq.Sorted(cmp, InOrder(t))
  {
    match t
    case Nil =>
    case Node(l, _, k, _, r) =>
      OrderedIffSorted(cmp, l);
      OrderedIffSorted(cmp, r);
      KeySeq.SortedJoin(cmp, InOrder(l), k, InOrder(r));
  }

  /** Search on an ordered tree finds what a scan of its sorted keys finds. */
  lemma {:induction false} SearchFinds<K(!new)>(cmp: (K, K) -> int, t: Tree<K>, q: K)
    requires IsComparator(cmp) && Ordered(cmp, t)
    ensures Search(cmp, t, q) == KeySeq.Find(cmp, InOrder(t), q)
  {
    match t
    case Nil =>
    case Node(l, _, x, _, r) =>
      var a, b := InOrder(l), InOrder(r);
      assert InOrder(t) == a + ([x] + b);
      KeySeq.FindConcat(cmp, a, [x] + b, q);
      KeySeq.FindConcat(cmp, [x], b, q);
      if cmp(q, x) == 0 {
        KeySeq.AbsentBelow(cmp, a, x, q);
      } else if cmp(q, x) < 0 {
        SearchFinds(cmp, l, q);
        KeySeq.AbsentAbove(cmp, b, x, q);
      } else {
        SearchFinds(cmp, r, q);
        KeySeq.AbsentBelow(cmp, a, x, q);
      }
  }

  /** Insert into an ordered tree is the sorted-sequence insert of its keys. */
  lemma {:induction false} InsertContents<K(!new)>(cmp: (K, K) -> int, t: Tree<K>, k: K, slot: nat)
    requires IsComparator(cmp) && Ordered(cmp, t)
    ensures InOrder(Insert(cmp, t, k, slot)) == KeySeq.Insert(cmp, InOrder(t), k)
  {
    match t
    case Nil =>
    case Node(l, i, x, h, r) =>
      KeySeq.InsertAtSplit(cmp, InOrder(l), x, InOrder(r), k);
      if cmp(k, x) < 0 {
        InsertContents(cmp, l, k, slot);
        RebalanceInsertKeeps(Node(Insert(cmp, l, k, slot), i, x, h, r));
      } else if cmp(k, x) > 0 {
        InsertContents(cmp, r, k, slot);
        RebalanceInsertKeeps(Node(l, i, x, h, Insert(cmp, r, k, slot)));
      }
  }

  /** Insert keeps the tree ordered. */
  lemma InsertOrdered<K(!new)>(cmp: (K, K) -> int, t: Tree<K>, k: K, slot: nat)
    requires IsComparator(cmp) && Ordered(cmp, t)
    ensures Ordered(cmp, Insert(cmp, t, k, slot))
  {
    InsertContents(cmp, t, k, slot);
    OrderedIffSorted(cmp, t);
    KeySeq.InsertSorted(cmp, InOrder(t), k);
    OrderedIffSorted(cmp, Insert(cmp, t, k, slot));
  }

  /** The leftmost-descent key is the first key in order. */
  lemma {:induction false} MinKeyFirst<K>(t: Tree<K>)
    requires t.Node?
    ensures InOrder(t) != [] && InOrder(t)[0] == MinKey(t)
  {
    if t.left.Node? {
      MinKeyFirst(t.left);
    }
  }

  /** The rightmost-descent key is the last key in order. */
  lemma {:induction false} MaxKeyLast<K>(t: Tree<K>)
    requires t.Node?
    ensures InOrder(t) != [] && InOrder(t)[|InOrder(t)| - 1] == MaxKey(t)
  {
    if t.right.Node? {
      MaxKeyLast(t.right);
    }
  }

  /** Delete from an ordered tree (either rebalancing variant) is the sorted-sequence remove. */
  lemma {:induction false} DeleteContents<K(!new)>(cmp: (K, K) -> int, t: Tree<K>, q: K, standard: bool)
    requires IsComparator(cmp) && Ordered(cmp, t)
    ensures InOrder(Delete(cmp, t, q, standard).tree) == KeySeq.Remove(cmp, InOrder(t), q)
    decreases t, 0
  {
    match t
    case Nil =>
    case Node(l, i, x, h, r) =>
      if cmp(q, x) < 0 {
        DeleteContents(cmp, l, q, standard);
        DeleteDescendStep(cmp, t, q, standard);
      } else if cmp(q, x) > 0 {
        DeleteContents(cmp, r, q, standard);
        DeleteDescendStep(cmp, t, q, standard);
      } else if l.Node? && r.Node? {
        if BalanceFactor(t) < 0 {
          DeleteSuccessor(cmp, r, standard);
        } else {
          DeletePredecessor(cmp, l, standard);
        }
        DeleteHitStep(cmp, t, q, standard);
      } else {
        DeleteHitStep(cmp, t, q, standard);
      }
  }

  /** One level of DeleteContents when the descent goes on into a child. */
  lemma DeleteDescendStep<K(!new)>(cmp: (K, K) -> int, t: Tree<K>, q: K, standard: bool)
    requires IsComparator(cmp) && Ordered(cmp, t) && t.Node? && cmp(q, t.key) != 0
    requires cmp(q, t.key) < 0 ==>
      InOrder(Delete(cmp, t.left, q, standard).tree) == KeySeq.Remove(cmp, InOrder(t.left), q)
    requires cmp(q, t.key) > 0 ==>
      InOrder(Delete(cmp, t.right, q, standard).tree) == KeySeq.Remove(cmp, InOrder(t.right), q)
    ensures InOrder(Delete(cmp, t, q, standard).tree) == KeySeq.Remove(cmp, InOrder(t), q)
  {
    var Node(l, i, x, h, r) := t;
    KeySeq.RemoveAtSplit(cmp, InOrder(l), x, InOrder(r), q);
    if cmp(q, x) < 0 {
      var s := Node(Delete(cmp, l, q, standard).tree, i, x, h, r);
      RebalanceShrunkKeeps(s, standard);
      UpdateHeightKeeps(RebalanceLeftShrunk(s, standard));
    } else {
      var s := Node(l, i, x, h, Delete(cmp, r, q, standard).tree);
      RebalanceShrunkKeeps(s, standard);
      UpdateHeightKeeps(RebalanceRightShrunk(s, standard));
    }
  }

  /** One level of DeleteContents when the node holds the key. */
  lemma DeleteHitStep<K(!new)>(cmp: (K, K) -> int, t: Tree<K>, q: K, standard: bool)
    requires IsComparator(cmp) && Ordered(cmp, t) && t.Node? && cmp(q, t.key) == 0
    requires t.left.Node? && t.right.Node? && BalanceFactor(t) < 0 ==>
      InOrder(Delete(cmp, t.right, MinKey(t.right), standard).tree) == InOrder(t.right)[1..]
    requires t.left.Node? && t.right.Node? && BalanceFactor(t) >= 0 ==>
      InOrder(Delete(cmp, t.left, MaxKey(t.left), standard).tree) == InOrder(t.left)[..|InOrder(t.left)| - 1]
    ensures InOrder(Delete(cmp, t, q, standard).tree) == KeySeq.Remove(cmp, InOrder(t), q)
  {
    var Node(l, i, x, h, r) := t;
    KeySeq.RemoveAtSplit(cmp, InOrder(l), x, InOrder(r), q);
    if l.Node? && r.Node? {
      if BalanceFactor(t) < 0 {
        HitTakesSuccessor(cmp, t, q, standard);
      } else {
        HitTakesPredecessor(cmp, t, q, standard);
      }
    } else {
      UpdateHeightKeeps(if l.Nil? then r else l);
    }
  }

  lemma HitTakesSuccessor<K>(cmp: (K, K) -> int, t: Tree<K>, q: K, standard: bool)
    requires t.Node? && cmp(q, t.key) == 0 && t.left.Node? && t.right.Node? && BalanceFactor(t) < 0
    requires InOrder(Delete(cmp, t.right, MinKey(t.right), standard).tree) == InOrder(t.right)[1..]
    ensures InOrder(Delete(cmp, t, q, standard).tree) == InOrder(t.left) + InOrder(t.right)
  {
    var Node(l, i, x, h, r) := t;
    var d := Delete(cmp, r, MinKey(r), standard);
    MinKeyFirst(r);
    assert InOrder(r) == [MinKey(r)] + InOrder(d.tree);
    UpdateHeightKeeps(Node(l, i, MinKey(r), h, d.tree));
  }

  lemma HitTakesPredecessor<K>(cmp: (K, K) -> int, t: Tree<K>, q: K, standard: bool)
    requires t.Node? && cmp(q, t.key) == 0 && t.left.Node? && t.right.Node? && BalanceFactor(t) >= 0
    requires InOrder(Delete(cmp, t.left, MaxKey(t.left), standard).tree) == InOrder(t.left)[..|InOrder(t.left)| - 1]
    ensures InOrder(Delete(cmp, t, q, standard).tree) == InOrder(t.left) + InOrder(t.right)
  {
    var Node(l, i, x, h, r) := t;
    var d := Delete(cmp, l, MaxKey(l), standard);
    MaxKeyLast(l);
    assert InOrder(l) == InOrder(d.tree) + [MaxKey(l)];
    UpdateHeightKeeps(Node(d.tree, i, MaxKey(l), h, r));
  }

  /** Deleting the leftmost key of an ordered tree drops its first key. */
  lemma DeleteSuccessor<K(!new)>(cmp: (K, K) -> int, r: Tree<K>, standard: bool)
    requires IsComparator(cmp) && Ordered(cmp, r) && r.Node?
    ensures InOrder(Delete(cmp, r, MinKey(r), standard).tree) == InOrder(r)[1..]
    decreases r, 1
  {
    var b := InOrder(r);
    MinKeyFirst(r);
    DeleteContents(cmp, r, MinKey(r), standard);
    OrderedIffSorted(cmp, r);
    KeySeq.RemoveConcatLeft(cmp, [b[0]], b[1..], MinKey(r)) by {
      KeySeq.SortedHead(cmp, b);
      KeySeq.AbsentAbove(cmp, b[1..], b[0], MinKey(r));
    }
    assert b == [b[0]] + b[1..];
  }

  /** Deleting the rightmost key of an ordered tree drops its last key. */
  lemma DeletePredecessor<K(!new)>(cmp: (K, K) -> int, l: Tree<K>, standard: bool)
    requires IsComparator(cmp) && Ordered(cmp, l) && l.Node?
    ensures InOrder(Delete(cmp, l, MaxKey(l), standard).tree) == InOrder(l)[..|InOrder(l)| - 1]
    decreases l, 1
  {
    MaxKeyLast(l);
    DeleteContents(cmp, l, MaxKey(l), standard);
    OrderedIffSorted(cmp, l);
    KeySeq.SortedLast(cmp, InOrder(l));
  }

  /** Delete keeps the tree ordered. */
  lemma DeleteOrdered<K(!new)>(cmp: (K, K) -> int, t: Tree<K>, q: K, standard: bool)
    requires IsComparator(cmp) && Ordered(cmp, t)
    ensures Ordered(cmp, Delete(cmp, t, q, standard).tree)
  {
    DeleteContents(cmp, t, q, standard);
    OrderedIffSorted(cmp, t);
    KeySeq.RemoveSorted(cmp, InOrder(t), q);
    OrderedIffSorted(cmp, Delete(cmp, t, q, standard).tree);
  }

  /** The leftmost and rightmost keys of an ordered tree are found by Search. */
  lemma ExtremesFound<K(!new)>(cmp: (K, K) -> int, t: Tree<K>)
    requires IsComparator(cmp) && Ordered(cmp, t) && t.Node?
    ensures Search(cmp, t, MinKey(t)).Some? && Search(cmp, t, MaxKey(t)).Some?
  {
    MinKeyFirst(t);
    MaxKeyLast(t);
    SearchFinds(cmp, t, MinKey(t));
    SearchFinds(cmp, t, MaxKey(t));
    var s := InOrder(t);
    assert cmp(MinKey(t), s[0]) == 0 && cmp(MaxKey(t), s[|s| - 1]) == 0;
  }

  /** Delete frees a slot exactly when the key is in the tree. */
  lemma {:induction false} DeleteFreesIffFound<K(!new)>(cmp: (K, K) -> int, t: Tree<K>, q: K, standard: bool)
    requires IsComparator(cmp) && Ordered(cmp, t)
    ensures Delete(cmp, t, q, standard).freed.Some? <==> Search(cmp, t, q).Some?
  {
    match t
    case Nil =>
    case Node(l, i, x, h, r) =>
      if cmp(q, x) < 0 {
        DeleteFreesIffFound(cmp, l, q, standard);
      } else if cmp(q, x) > 0 {
        DeleteFreesIffFound(cmp, r, q, standard);
      } else if l.Node? && r.Node? {
        if BalanceFactor(t) < 0 {
          ExtremesFound(cmp, r);
          DeleteFreesIffFound(cmp, r, MinKey(r), standard);
        } else {
          ExtremesFound(cmp, l);
          DeleteFreesIffFound(cmp, l, MaxKey(l), standard);
        }
      }
  }
}
