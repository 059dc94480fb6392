/**
 * The arena of src/c-avl.c: one array of elements, each holding the links
 * to its children (as slot indices, where the source stores addresses), a
 * height and a key. Stored(a, t) says that the arena a encodes the tree t;
 * the node methods below rewrite the arena in place exactly as the source
 * does and are proved to leave it encoding the value the corresponding
 * function of module AvlTree computes.
 */
module Arena {
  import opened Wrappers
  import opened AvlTree
  import opened AvlSlots

  /** avl_set_element: links, height and key; a NULL key is None. */
  datatype Element<K> = Element(left: Option<nat>, right: Option<nat>, height: nat, key: Option<K>)

  /** An element after memset(0): no links, height 0, NULL key. */
  function Zeroed<K>(): Element<K> {
    Element(None, None, 0, None)
  }

  /** The arena a holds every node of t in the node's slot, with its links, height and key. */
  ghost predicate Stored<K>(a: seq<Element<K>>, t: Tree<K>) {
    match t
    case Nil => true
    case Node(l, i, k, h, r) =>
      i < |a| && a[i] == Element(Link(l), Link(r), h, Some(k)) && Stored(a, l) && Stored(a, r)
  }

  /** As Stored, except that the height in the root's slot may be stale. */
  ghost predicate StoredLoose<K>(a: seq<Element<K>>, t: Tree<K>) {
    t.Node? && t.idx < |a| &&
    a[t.idx].left == Link(t.left) && a[t.idx].right == Link(t.right) && a[t.idx].key == Some(t.key) &&
    Stored(a, t.left) && Stored(a, t.right)
  }

  /** b equals a except possibly in the slots of s. */
  ghost predicate Agree<K>(a: seq<Element<K>>, b: seq<Element<K>>, s: set<nat>) {
    |a| == |b| && forall j :: 0 <= j < |a| && j !in s ==> a[j] == b[j]
  }

  lemma {:induction false} StoredInRange<K>(a: seq<Element<K>>, t: Tree<K>)
    requires Stored(a, t)
    ensures forall j :: j in Slots(t) ==> j < |a|
  {
    match t
    case Nil =>
    case Node(l, _, _, _, r) =>
      StoredInRange(a, l);
      StoredInRange(a, r);
  }

  /** Writes outside a tree's slots do not disturb it. */
  lemma {:induction false} StoredAgree<K>(a: seq<Element<K>>, b: seq<Element<K>>, s: set<nat>, t: Tree<K>)
    requires Stored(a, t) && Agree(a, b, s) && Slots(t) !! s
    ensures Stored(b, t)
  {
    match t
    case Nil =>
    case Node(l, i, _, _, r) =>
      assert i !in s;
      StoredAgree(a, b, s, l);
      StoredAgree(a, b, s, r);
  }

  /** A larger arena that keeps the old slots still encodes the tree. */
  lemma {:induction false} StoredGrow<K>(a: seq<Element<K>>, b: seq<Element<K>>, t: Tree<K>)
    requires Stored(a, t) && |a| <= |b| && b[..|a|] == a
    ensures Stored(b, t)
  {
    match t
    case Nil =>
    case Node(l, i, _, _, r) =>
      assert b[i] == b[..|a|][i];
      StoredGrow(a, b, l);
      StoredGrow(a, b, r);
  }

  lemma AgreeTrans<K>(a: seq<Element<K>>, b: seq<Element<K>>, c: seq<Element<K>>, s: set<nat>, u: set<nat>)
    requires Agree(a, b, s) && Agree(b, c, u)
    ensures Agree(a, c, s + u)
  {
  }

  lemma AgreeWiden<K>(a: seq<Element<K>>, b: seq<Element<K>>, s: set<nat>, u: set<nat>)
    requires Agree(a, b, s) && s <= u
    ensures Agree(a, b, u)
  {
  }

  /** _avl_height on a link. */
  method HeightOf<K>(a: array<Element<K>>, e: Option<nat>, ghost t: Tree<K>) returns (h: nat)
    requires Stored(a[..], t) && e == Link(t)
    ensures h == Height(t)
  {
    if e.None? {
      return 0;
    }
    return a[e.value].height;
  }

  /** __avl_balance_factor on a node. */
  method BalanceOf<K>(a: array<Element<K>>, i: nat, ghost t: Tree<K>) returns (b: int)
    requires StoredLoose(a[..], t) && t.idx == i
    ensures b == BalanceFactor(t)
  {
    var hl := HeightOf(a, a[i].left, t.left);
    var hr := HeightOf(a, a[i].right, t.right);
    return hl as int - hr as int;
  }

  /** _avl_update_height on the node in slot i. */
  method UpdateHeightAt<K>(a: array<Element<K>>, i: nat, ghost t: Tree<K>)
    requires StoredLoose(a[..], t) && t.idx == i && i !in Slots(t.left) && i !in Slots(t.right)
    modifies a
    ensures Stored(a[..], UpdateHeight(t)) && Agree(old(a[..]), a[..], {i})
  {
    var hl := HeightOf(a, a[i].left, t.left);
    var hr := HeightOf(a, a[i].right, t.right);
    a[i] := a[i].(height := Max(hl, hr) + 1);
    StoredAgree(old(a[..]), a[..], {i}, t.left);
    StoredAgree(old(a[..]), a[..], {i}, t.right);
  }

  /** avl_single_rotate_right on the node in slot i; returns the slot of the new subtree root. */
  method RotateRightAt<K>(a: array<Element<K>>, i: nat, ghost t: Tree<K>) returns (nr: nat)
    requires StoredLoose(a[..], t) && t.idx == i && t.left.Node? && UniqueSlots(t)
    modifies a
    ensures Stored(a[..], RotateRight(t)) && nr == RotateRight(t).idx
    ensures Agree(old(a[..]), a[..], {i, t.left.idx})
  {
    var l := a[i].left.value;
    ghost var L := t.left;
    ghost var a0 := a[..];
    a[i] := a[i].(left := a[l].right);
    a[l] := a[l].(right := Some(i));
    ghost var down := Node(L.right, i, t.key, t.h, t.right);
    StoredAgree(a0, a[..], {i, l}, L.right);
    StoredAgree(a0, a[..], {i, l}, t.right);
    StoredAgree(a0, a[..], {i, l}, L.left);
    ghost var a1 := a[..];
    UpdateHeightAt(a, i, down);
    StoredAgree(a1, a[..], {i}, L.left);
    ghost var a2 := a[..];
    UpdateHeightAt(a, l, Node(L.left, l, L.key, L.h, UpdateHeight(down)));
    AgreeTrans(a0, a1, a2, {i, l}, {i});
    AgreeTrans(a0, a2, a[..], {i, l}, {l});
    nr := l;
  }

  /** avl_single_rotate_left on the node in slot i; returns the slot of the new subtree root. */
  method RotateLeftAt<K>(a: array<Element<K>>, i: nat, ghost t: Tree<K>) returns (nr: nat)
    requires StoredLoose(a[..], t) && t.idx == i && t.right.Node? && UniqueSlots(t)
    modifies a
    ensures Stored(a[..], RotateLeft(t)) && nr == RotateLeft(t).idx
    ensures Agree(old(a[..]), a[..], {i, t.right.idx})
  {
    var r := a[i].right.value;
    ghost var R := t.right;
    ghost var a0 := a[..];
    a[i] := a[i].(right := a[r].left);
    a[r] := a[r].(left := Some(i));
    ghost var down := Node(t.left, i, t.key, t.h, R.left);
    StoredAgree(a0, a[..], {i, r}, R.left);
    StoredAgree(a0, a[..], {i, r}, t.left);
    StoredAgree(a0, a[..], {i, r}, R.right);
    ghost var a1 := a[..];
    UpdateHeightAt(a, i, down);
    StoredAgree(a1, a[..], {i}, R.right);
    ghost var a2 := a[..];
    UpdateHeightAt(a, r, Node(UpdateHeight(down), r, R.key, R.h, R.right));
    AgreeTrans(a0, a1, a2, {i, r}, {i});
    AgreeTrans(a0, a2, a[..], {i, r}, {r});
    nr := r;
  }

  /**
   * The LR double rotation of the source: rotate the left child of the node
   * in slot i left, store the new left link, then rotate the node right.
   */
  method RotateLeftRightAt<K>(a: array<Element<K>>, i: nat, ghost t: Tree<K>) returns (nr: nat)
    requires StoredLoose(a[..], t) && t.idx == i && t.left.Node? && t.left.right.Node? && UniqueSlots(t)
    modifies a
    ensures Stored(a[..], RotateRight(t.(left := RotateLeft(t.left))))
    ensures nr == RotateRight(t.(left := RotateLeft(t.left))).idx
    ensures Agree(old(a[..]), a[..], Slots(t))
  {
    var l := a[i].left.value;
    ghost var a0 := a[..];
    nr := RotateLeftAt(a, l, t.left);
    ghost var a1 := a[..];
    a[i] := a[i].(left := Some(nr));
    ghost var u := t.(left := RotateLeft(t.left));
    StoredAgree(a0, a1, {l, t.left.right.idx}, t.right);
    StoredAgree(a1, a[..], {i}, t.right);
    StoredAgree(a1, a[..], {i}, u.left);
    RotateLeftUnique(t.left);
    ghost var a2 := a[..];
    nr := RotateRightAt(a, i, u);
    AgreeTrans(a0, a1, a2, {l, t.left.right.idx}, {i});
    AgreeTrans(a0, a2, a[..], {l, t.left.right.idx} + {i}, {i, u.left.idx});
    AgreeWiden(a0, a[..], {l, t.left.right.idx} + {i} + {i, u.left.idx}, Slots(t));
  }

  /** The RL double rotation: the mirror image of RotateLeftRightAt. */
  method RotateRightLeftAt<K>(a: array<Element<K>>, i: nat, ghost t: Tree<K>) returns (nr: nat)
    requires StoredLoose(a[..], t) && t.idx == i && t.right.Node? && t.right.left.Node? && UniqueSlots(t)
    modifies a
    ensures Stored(a[..], RotateLeft(t.(right := RotateRight(t.right))))
    ensures nr == RotateLeft(t.(right := RotateRight(t.right))).idx
    ensures Agree(old(a[..]), a[..], Slots(t))
  {
    var r := a[i].right.value;
    ghost var a0 := a[..];
    nr := RotateRightAt(a, r, t.right);
    ghost var a1 := a[..];
    a[i] := a[i].(right := Some(nr));
    ghost var u := t.(right := RotateRight(t.right));
    StoredAgree(a0, a1, {r, t.right.left.idx}, t.left);
    StoredAgree(a1, a[..], {i}, t.left);
    StoredAgree(a1, a[..], {i}, u.right);
    RotateRightUnique(t.right);
    ghost var a2 := a[..];
    nr := RotateLeftAt(a, i, u);
    AgreeTrans(a0, a1, a2, {r, t.right.left.idx}, {i});
    AgreeTrans(a0, a2, a[..], {r, t.right.left.idx} + {i}, {i, u.right.idx});
    AgreeWiden(a0, a[..], {r, t.right.left.idx} + {i} + {i, u.right.idx}, Slots(t));
  }

  /**
   * The rebalancing step of __avl_set_insert on the node in slot i, whose
   * child link was just rewritten; returns the slot of the new subtree root.
   */
  method RebalanceInsertAt<K>(a: array<Element<K>>, i: nat, ghost t: Tree<K>) returns (nr: nat)
    requires StoredLoose(a[..], t) && t.idx == i && UniqueSlots(t)
    modifies a
    ensures Stored(a[..], RebalanceInsert(t)) && nr == RebalanceInsert(t).idx
    ensures Agree(old(a[..]), a[..], Slots(t))
  {
    ghost var a0 := a[..];
    UpdateHeightAt(a, i, t);
    ghost var s := UpdateHeight(t);
    UpdateHeightKeeps(t);
    ghost var a1 := a[..];
    var bf := BalanceOf(a, i, s);
    if bf > 1 {
      var lbf := BalanceOf(a, a[i].left.value, s.left);
      if lbf > 0 {
        nr := RotateRightAt(a, i, s);
        AgreeTrans(a0, a1, a[..], {i}, {i, s.left.idx});
        return;
      } else if lbf < 0 {
        nr := RotateLeftRightAt(a, i, s);
        AgreeTrans(a0, a1, a[..], {i}, Slots(t));
        return;
      }
    } else if bf < -1 {
      var rbf := BalanceOf(a, a[i].right.value, s.right);
      if rbf < 0 {
        nr := RotateLeftAt(a, i, s);
        AgreeTrans(a0, a1, a[..], {i}, {i, s.right.idx});
        return;
      } else if rbf > 0 {
        nr := RotateRightLeftAt(a, i, s);
        AgreeTrans(a0, a1, a[..], {i}, Slots(t));
        return;
      }
    }
    nr := i;
  }

  /**
   * The balance check of __avl_set_delete after deleting from the left child
   * of the node in slot i, with the standard rotation on an even right child.
   */
  method RebalanceLeftShrunkAt<K>(a: array<Element<K>>, i: nat, ghost t: Tree<K>) returns (nr: nat)
    requires StoredLoose(a[..], t) && t.idx == i && UniqueSlots(t)
    modifies a
    ensures StoredLoose(a[..], RebalanceLeftShrunk(t, true)) && nr == RebalanceLeftShrunk(t, true).idx
    ensures Agree(old(a[..]), a[..], Slots(t))
  {
    var bf := BalanceOf(a, i, t);
    if bf < -1 {
      var rbf := BalanceOf(a, a[i].right.value, t.right);
      if rbf <= 0 {
        nr := RotateLeftAt(a, i, t);
      } else {
        nr := RotateRightLeftAt(a, i, t);
      }
      return;
    }
    nr := i;
  }

  /** The mirror image of RebalanceLeftShrunkAt, after deleting from the right child. */
  method RebalanceRightShrunkAt<K>(a: array<Element<K>>, i: nat, ghost t: Tree<K>) returns (nr: nat)
    requires StoredLoose(a[..], t) && t.idx == i && UniqueSlots(t)
    modifies a
    ensures StoredLoose(a[..], RebalanceRightShrunk(t, true)) && nr == RebalanceRightShrunk(t, true).idx
    ensures Agree(old(a[..]), a[..], Slots(t))
  {
    var bf := BalanceOf(a, i, t);
    if bf > 1 {
      var lbf := BalanceOf(a, a[i].left.value, t.left);
      if lbf >= 0 {
        nr := RotateRightAt(a, i, t);
      } else {
        nr := RotateLeftRightAt(a, i, t);
      }
      return;
    }
    nr := i;
  }

  /** Overwrite the key of the node in slot i, as the two-child case of __avl_set_delete does. */
  method SetKeyAt<K>(a: array<Element<K>>, i: nat, k: K, ghost t: Tree<K>)
    requires Stored(a[..], t) && t.Node? && t.idx == i && i !in Slots(t.left) && i !in Slots(t.right)
    modifies a
    ensures Stored(a[..], t.(key := k)) && Agree(old(a[..]), a[..], {i})
  {
    a[i] := a[i].(key := Some(k));
    StoredAgree(old(a[..]), a[..], {i}, t.left);
    StoredAgree(old(a[..]), a[..], {i}, t.right);
  }

  /**
   * Store a new link on one side of the node in slot i and update its
   * height: the end of the two-child case of __avl_set_delete.
   */
  method SetLinkAt<K>(a: array<Element<K>>, i: nat, left: bool, link: Option<nat>, ghost u: Tree<K>)
    requires u.Node? && u.idx == i && i < a.Length && i !in Slots(u.left) && i !in Slots(u.right)
    requires Stored(a[..], u.left) && Stored(a[..], u.right) && a[i].key == Some(u.key)
    requires left ==> link == Link(u.left) && a[i].right == Link(u.right)
    requires !left ==> link == Link(u.right) && a[i].left == Link(u.left)
    modifies a
    ensures Stored(a[..], UpdateHeight(u)) && Agree(old(a[..]), a[..], {i})
  {
    if left {
      a[i] := a[i].(left := link);
    } else {
      a[i] := a[i].(right := link);
    }
    StoredAgree(old(a[..]), a[..], {i}, u.left);
    StoredAgree(old(a[..]), a[..], {i}, u.right);
    UpdateHeightAt(a, i, u);
  }

  /**
   * The way back up one frame of __avl_set_insert after inserting into a
   * child of the node in slot i: store the new link on that side, then
   * rebalance.
   */
  method RelinkInsertAt<K>(a: array<Element<K>>, i: nat, left: bool, link: nat, ghost u: Tree<K>) returns (nr: nat)
    requires u.Node? && u.idx == i && i < a.Length && UniqueSlots(u)
    requires Stored(a[..], u.left) && Stored(a[..], u.right) && a[i].key == Some(u.key)
    requires left ==> Some(link) == Link(u.left) && a[i].right == Link(u.right)
    requires !left ==> Some(link) == Link(u.right) && a[i].left == Link(u.left)
    modifies a
    ensures Stored(a[..], RebalanceInsert(u)) && nr == RebalanceInsert(u).idx
    ensures Agree(old(a[..]), a[..], Slots(u))
  {
    if left {
      a[i] := a[i].(left := Some(link));
    } else {
      a[i] := a[i].(right := Some(link));
    }
    StoredAgree(old(a[..]), a[..], {i}, u.left);
    StoredAgree(old(a[..]), a[..], {i}, u.right);
    ghost var a1 := a[..];
    nr := RebalanceInsertAt(a, i, u);
    AgreeTrans(old(a[..]), a1, a[..], {i}, Slots(u));
  }

  /**
   * The way back up one frame of __avl_set_delete after deleting from the
   * left child of the node in slot i: store the new left link, rebalance,
   * and update the height of the subtree root.
   */
  method RelinkLeftAt<K>(a: array<Element<K>>, i: nat, nl: Option<nat>, ghost u: Tree<K>) returns (nr: nat)
    requires u.Node? && u.idx == i && i < a.Length && UniqueSlots(u) && nl == Link(u.left)
    requires Stored(a[..], u.left) && Stored(a[..], u.right)
    requires a[i].right == Link(u.right) && a[i].key == Some(u.key)
    modifies a
    ensures Stored(a[..], UpdateHeight(RebalanceLeftShrunk(u, true)))
    ensures nr == RebalanceLeftShrunk(u, true).idx
    ensures Agree(old(a[..]), a[..], Slots(u))
  {
    a[i] := a[i].(left := nl);
    StoredAgree(old(a[..]), a[..], {i}, u.left);
    StoredAgree(old(a[..]), a[..], {i}, u.right);
    ghost var a1 := a[..];
    nr := RebalanceLeftShrunkAt(a, i, u);
    AgreeTrans(old(a[..]), a1, a[..], {i}, Slots(u));
    RebalanceShrunkKeeps(u, true);
    ghost var a2 := a[..];
    UpdateHeightAt(a, nr, RebalanceLeftShrunk(u, true));
    AgreeTrans(old(a[..]), a2, a[..], {i} + Slots(u), {nr});
    AgreeWiden(old(a[..]), a[..], {i} + Slots(u) + {nr}, Slots(u));
  }

  /** The mirror image of RelinkLeftAt, after deleting from the right child. */
  method RelinkRightAt<K>(a: array<Element<K>>, i: nat, nrr: Option<nat>, ghost u: Tree<K>) returns (nr: nat)
    requires u.Node? && u.idx == i && i < a.Length && UniqueSlots(u) && nrr == Link(u.right)
    requires Stored(a[..], u.left) && Stored(a[..], u.right)
    requires a[i].left == Link(u.left) && a[i].key == Some(u.key)
    modifies a
    ensures Stored(a[..], UpdateHeight(RebalanceRightShrunk(u, true)))
    ensures nr == RebalanceRightShrunk(u, true).idx
    ensures Agree(old(a[..]), a[..], Slots(u))
  {
    a[i] := a[i].(right := nrr);
    StoredAgree(old(a[..]), a[..], {i}, u.left);
    StoredAgree(old(a[..]), a[..], {i}, u.right);
    ghost var a1 := a[..];
    nr := RebalanceRightShrunkAt(a, i, u);
    AgreeTrans(old(a[..]), a1, a[..], {i}, Slots(u));
    RebalanceShrunkKeeps(u, true);
    ghost var a2 := a[..];
    UpdateHeightAt(a, nr, RebalanceRightShrunk(u, true));
    AgreeTrans(old(a[..]), a2, a[..], {i} + Slots(u), {nr});
    AgreeWiden(old(a[..]), a[..], {i} + Slots(u) + {nr}, Slots(u));
  }

  /** The leftmost-descent loop of __avl_set_delete: the slot holding the smallest key of t. */
  method MinSlot<K>(a: array<Element<K>>, j: nat, ghost t: Tree<K>) returns (m: nat)
    requires Stored(a[..], t) && t.Node? && t.idx == j
    ensures m < a.Length && a[m].key == Some(MinKey(t))
  {
    m := j;
    ghost var s := t;
    while a[m].left.Some?
      invariant Stored(a[..], s) && s.Node? && s.idx == m && MinKey(s) == MinKey(t)
      decreases s
    {
      m := a[m].left.value;
      s := s.left;
    }
  }

  /** The rightmost-descent loop of __avl_set_delete: the slot holding the largest key of t. */
  method MaxSlot<K>(a: array<Element<K>>, j: nat, ghost t: Tree<K>) returns (m: nat)
    requires Stored(a[..], t) && t.Node? && t.idx == j
    ensures m < a.Length && a[m].key == Some(MaxKey(t))
  {
    m := j;
    ghost var s := t;
    while a[m].right.Some?
      invariant Stored(a[..], s) && s.Node? && s.idx == m && MaxKey(s) == MaxKey(t)
      decreases s
    {
      m := a[m].right.value;
      s := s.right;
    }
  }

  /**
   * __avl_set_search from the node in slot i: the slot of the node whose key
   * compares equal, if the descent reaches one.
   */
  method SearchFrom<K>(a: array<Element<K>>, cmp: (K, K) -> int, i: nat, k: K, ghost t: Tree<K>)
    returns (r: Option<nat>)
    requires Stored(a[..], t) && t.Node? && t.idx == i
    ensures r.None? <==> Search(cmp, t, k).None?
    ensures r.Some? ==> r.value < a.Length && a[r.value].key == Search(cmp, t, k)
    decreases t
  {
    var c := cmp(k, a[i].key.value);
    if c == 0 {
      return Some(i);
    } else if c < 0 {
      if a[i].left.Some? {
        r := SearchFrom(a, cmp, a[i].left.value, k, t.left);
        return;
      }
    } else {
      if a[i].right.Some? {
        r := SearchFrom(a, cmp, a[i].right.value, k, t.right);
        return;
      }
    }
    return None;
  }
}
