/**
 * struct avl_set of src/c-avl.c: the arena, the free-slot stack, the root
 * slot and the element count, with the public set operations. The ghost
 * field root is the tree the arena encodes; released records, in order,
 * every key the set hands to the key destructor.
 */
module ArenaAvl {
  import opened Wrappers
  import opened Comparator
  import KeySeq
  import opened AvlTree
  import opened AvlSlots
  import opened AvlContents
  import opened AvlShape
  import opened Arena
  import opened ArenaKeys
  import opened FreeSlots

  /** _AVL_DEFAULT_RESERVE */
  const DefaultReserve: nat := 8

  /** The free stack avl_set_create builds: n - 1 at the bottom, 0 on top. */
  function Countdown(n: nat): (s: seq<nat>)
    ensures |s| == n && forall p :: 0 <= p < n ==> s[p] == n - 1 - p
  {
    seq(n, p requires 0 <= p < n => n - 1 - p)
  }

  /** The indices lo, lo + 1, ..., hi - 1. */
  function Range(lo: nat, hi: nat): (s: seq<nat>)
    requires lo <= hi
    ensures |s| == hi - lo && forall p :: 0 <= p < hi - lo ==> s[p] == lo + p
  {
    seq(hi - lo, p requires 0 <= p < hi - lo => lo + p)
  }

  /**
   * Slot conservation: the free stack and the live slots together hold
   * every slot below n exactly once.
   */
  ghost predicate Partition(free: seq<nat>, live: set<nat>, n: nat) {
    (forall p :: 0 <= p < |free| ==> free[p] < n && free[p] !in live) &&
    (forall p, q :: 0 <= p < q < |free| ==> free[p] != free[q]) &&
    (forall j :: 0 <= j < n ==> j in live || j in free) &&
    (forall j :: j in live ==> j < n)
  }

  /** The arena filled with Countdown(n), with no live slot, is a partition of n slots. */
  lemma CountdownPartition(n: nat)
    ensures Partition(Countdown(n), {}, n)
  {
    var c := Countdown(n);
    forall j | 0 <= j < n ensures j in c {
      assert c[n - 1 - j] == j;
    }
  }

  /** Popping the top free slot and making it live keeps the partition. */
  lemma PartitionPop(free: seq<nat>, live: set<nat>, n: nat)
    requires Partition(free, live, n) && free != []
    ensures Partition(free[..|free| - 1], live + {free[|free| - 1]}, n)
  {
    var f := free[..|free| - 1];
    forall j | 0 <= j < n ensures j in live + {free[|free| - 1]} || j in f {
      if j !in live && j != free[|free| - 1] {
        var p :| 0 <= p < |free| && free[p] == j;
        assert f[p] == j;
      }
    }
  }

  /** Pushing a live slot that becomes free keeps the partition. */
  lemma PartitionPush(free: seq<nat>, live: set<nat>, n: nat, x: nat)
    requires Partition(free, live, n) && x in live
    ensures Partition(free + [x], live - {x}, n)
  {
    var f := free + [x];
    forall j | 0 <= j < n ensures j in live - {x} || j in f {
      if j == x {
        assert f[|free|] == x;
      } else if j !in live {
        var p :| 0 <= p < |free| && free[p] == j;
        assert f[p] == j;
      }
    }
  }

  /** Growing the arena to m slots and pushing the new ones keeps the partition. */
  lemma PartitionGrow(free: seq<nat>, live: set<nat>, n: nat, m: nat)
    requires Partition(free, live, n) && n <= m
    ensures Partition(free + Range(n, m), live, m)
  {
    var f := free + Range(n, m);
    forall j | 0 <= j < m ensures j in live || j in f {
      if j >= n {
        assert f[|free| + j - n] == j;
      } else if j !in live {
        var p :| 0 <= p < |free| && free[p] == j;
        assert f[p] == j;
      }
    }
  }

  /** The slot a deletion pushes on the free stack, if any. */
  function FreedSlots(f: Option<nat>): (s: seq<nat>)
    ensures |s| <= 1 && (f.Some? ==> s == [f.value])
  {
    if f.Some? then [f.value] else []
  }

  /** Every slot that is not live holds a zeroed element. */
  ghost predicate FreeZeroed<K>(a: seq<Element<K>>, live: set<nat>) {
    forall j :: 0 <= j < |a| && j !in live ==> a[j] == Zeroed()
  }

  /** The node of st after the deletion in its left subtree, before rebalancing. */
  ghost function LeftAfter<K>(cmp: (K, K) -> int, st: Tree<K>, k: K): Tree<K>
    requires st.Node?
  {
    Node(AvlTree.Delete(cmp, st.left, k, true).tree, st.idx, st.key, st.h, st.right)
  }

  /** The node of st after the deletion in its right subtree, before rebalancing. */
  ghost function RightAfter<K>(cmp: (K, K) -> int, st: Tree<K>, k: K): Tree<K>
    requires st.Node?
  {
    Node(st.left, st.idx, st.key, st.h, AvlTree.Delete(cmp, st.right, k, true).tree)
  }

  /** After the deletion in the left subtree, the node's slot and right subtree are intact. */
  lemma DescendLeftReady<K>(cmp: (K, K) -> int, st: Tree<K>, k: K, a0: seq<Element<K>>, a1: seq<Element<K>>)
    requires st.Node? && UniqueSlots(st) && Stored(a0, st)
    requires Agree(a0, a1, Slots(st.left))
    ensures UniqueSlots(LeftAfter(cmp, st, k)) && Stored(a1, st.right)
    ensures st.idx < |a1| && a1[st.idx].right == Link(st.right) && a1[st.idx].key == Some(st.key)
  {
    DeleteSlots(cmp, st.left, k, true);
    StoredAgree(a0, a1, Slots(st.left), st.right);
  }

  /** After the deletion in the right subtree, the node's slot and left subtree are intact. */
  lemma DescendRightReady<K>(cmp: (K, K) -> int, st: Tree<K>, k: K, a0: seq<Element<K>>, a1: seq<Element<K>>)
    requires st.Node? && UniqueSlots(st) && Stored(a0, st)
    requires Agree(a0, a1, Slots(st.right))
    ensures UniqueSlots(RightAfter(cmp, st, k)) && Stored(a1, st.left)
    ensures st.idx < |a1| && a1[st.idx].left == Link(st.left) && a1[st.idx].key == Some(st.key)
  {
    DeleteSlots(cmp, st.right, k, true);
    StoredAgree(a0, a1, Slots(st.right), st.left);
  }

  /**
   * The deletion in the left subtree followed by the relink of the node
   * leaves the arena encoding the deletion from st, changed only in the
   * slots of st, with the freed slot zeroed.
   */
  lemma DescendLeftDone<K>(cmp: (K, K) -> int, st: Tree<K>, k: K, a0: seq<Element<K>>, a1: seq<Element<K>>, a2: seq<Element<K>>)
    requires st.Node? && UniqueSlots(st) && cmp(k, st.key) < 0
    requires Agree(a0, a1, Slots(st.left)) && Agree(a1, a2, Slots(LeftAfter(cmp, st, k)))
    requires Stored(a2, UpdateHeight(RebalanceLeftShrunk(LeftAfter(cmp, st, k), true)))
    requires AvlTree.Delete(cmp, st.left, k, true).freed.Some? ==>
      AvlTree.Delete(cmp, st.left, k, true).freed.value < |a1| && a1[AvlTree.Delete(cmp, st.left, k, true).freed.value] == Zeroed()
    ensures Agree(a0, a2, Slots(st)) && Stored(a2, AvlTree.Delete(cmp, st, k, true).tree)
    ensures AvlTree.Delete(cmp, st, k, true).freed == AvlTree.Delete(cmp, st.left, k, true).freed
    ensures AvlTree.Delete(cmp, st, k, true).freed.Some? ==>
      AvlTree.Delete(cmp, st, k, true).freed.value < |a2| && a2[AvlTree.Delete(cmp, st, k, true).freed.value] == Zeroed()
    ensures AvlTree.Delete(cmp, st, k, true).tree.Node?
    ensures AvlTree.Delete(cmp, st, k, true).tree.idx == RebalanceLeftShrunk(LeftAfter(cmp, st, k), true).idx
    ensures AvlTree.Search(cmp, st, k) == AvlTree.Search(cmp, st.left, k)
  {
    DeleteSlots(cmp, st.left, k, true);
    DeleteGoesLeft(cmp, st, k, true);
    var u := LeftAfter(cmp, st, k);
    AgreeTrans(a0, a1, a2, Slots(st.left), Slots(u));
    AgreeWiden(a0, a2, Slots(st.left) + Slots(u), Slots(st));
  }

  /** The mirror image of DescendLeftDone. */
  lemma DescendRightDone<K>(cmp: (K, K) -> int, st: Tree<K>, k: K, a0: seq<Element<K>>, a1: seq<Element<K>>, a2: seq<Element<K>>)
    requires st.Node? && UniqueSlots(st) && cmp(k, st.key) > 0
    requires Agree(a0, a1, Slots(st.right)) && Agree(a1, a2, Slots(RightAfter(cmp, st, k)))
    requires Stored(a2, UpdateHeight(RebalanceRightShrunk(RightAfter(cmp, st, k), true)))
    requires AvlTree.Delete(cmp, st.right, k, true).freed.Some? ==>
      AvlTree.Delete(cmp, st.right, k, true).freed.value < |a1| && a1[AvlTree.Delete(cmp, st.right, k, true).freed.value] == Zeroed()
    ensures Agree(a0, a2, Slots(st)) && Stored(a2, AvlTree.Delete(cmp, st, k, true).tree)
    ensures AvlTree.Delete(cmp, st, k, true).freed == AvlTree.Delete(cmp, st.right, k, true).freed
    ensures AvlTree.Delete(cmp, st, k, true).freed.Some? ==>
      AvlTree.Delete(cmp, st, k, true).freed.value < |a2| && a2[AvlTree.Delete(cmp, st, k, true).freed.value] == Zeroed()
    ensures AvlTree.Delete(cmp, st, k, true).tree.Node?
    ensures AvlTree.Delete(cmp, st, k, true).tree.idx == RebalanceRightShrunk(RightAfter(cmp, st, k), true).idx
    ensures AvlTree.Search(cmp, st, k) == AvlTree.Search(cmp, st.right, k)
  {
    DeleteSlots(cmp, st.right, k, true);
    DeleteGoesRight(cmp, st, k, true);
    var u := RightAfter(cmp, st, k);
    AgreeTrans(a0, a1, a2, Slots(st.right), Slots(u));
    AgreeWiden(a0, a2, Slots(st.right) + Slots(u), Slots(st));
  }

  /** The invariants of a set's tree other than where it is stored. */
  ghost predicate WellFormed<K(!new)>(cmp: (K, K) -> int, t: Tree<K>) {
    UniqueSlots(t) && Ordered(cmp, t) && HeightsOk(t) && Balanced(t)
  }

  /**
   * What avl_set_insert does to the invariant: the tree stays well formed,
   * its keys are the sorted insert, and the top free slot becomes live
   * exactly when the key was absent.
   */
  lemma InsertKeepsInvariant<K(!new)>(cmp: (K, K) -> int, st: Tree<K>, k: K, free: seq<nat>, n: nat,
                                      a0: seq<Element<K>>, a1: seq<Element<K>>)
    requires IsComparator(cmp) && WellFormed(cmp, st) && Partition(free, Slots(st), n) && free != []
    requires |a0| == n && FreeZeroed(a0, Slots(st))
    requires Agree(a0, a1, Slots(Insert(cmp, st, k, free[|free| - 1])))
    ensures var u := Insert(cmp, st, k, free[|free| - 1]);
      WellFormed(cmp, u) && FreeZeroed(a1, Slots(u)) &&
      InOrder(u) == KeySeq.Insert(cmp, InOrder(st), k) &&
      Search(cmp, st, k) == KeySeq.Find(cmp, InOrder(st), k) &&
      (Search(cmp, st, k).None? ==>
        |InOrder(u)| == |InOrder(st)| + 1 && Partition(free[..|free| - 1], Slots(u), n)) &&
      (Search(cmp, st, k).Some? ==> |InOrder(u)| == |InOrder(st)| && Partition(free, Slots(u), n))
  {
    var top := free[|free| - 1];
    var u := Insert(cmp, st, k, top);
    SearchFinds(cmp, st, k);
    InsertSlots(cmp, st, k, top);
    InsertOrdered(cmp, st, k, top);
    InsertAvl(cmp, st, k, top);
    InsertContents(cmp, st, k, top);
    OrderedIffSorted(cmp, st);
    KeySeq.InsertLength(cmp, InOrder(st), k);
    if Search(cmp, st, k).None? {
      PartitionPop(free, Slots(st), n);
    }
  }

  /**
   * What avl_set_delete needs to re-establish the set invariant: the
   * corrected deletion keeps the tree well formed, removes exactly the key
   * (when it was present) and frees exactly its slot, which becomes free.
   */
  lemma DeleteKeepsInvariant<K(!new)>(cmp: (K, K) -> int, st: Tree<K>, k: K, free: seq<nat>, n: nat,
                                      a0: seq<Element<K>>, a1: seq<Element<K>>)
    requires IsComparator(cmp) && WellFormed(cmp, st) && Partition(free, Slots(st), n)
    requires |a0| == n && FreeZeroed(a0, Slots(st)) && Agree(a0, a1, Slots(st))
    requires var f := Delete(cmp, st, k, true).freed;
      f.Some? ==> f.value < |a1| && a1[f.value] == Zeroed()
    ensures var d := Delete(cmp, st, k, true);
      WellFormed(cmp, d.tree) && FreeZeroed(a1, Slots(d.tree)) &&
      InOrder(d.tree) == KeySeq.Remove(cmp, InOrder(st), k) &&
      Search(cmp, st, k) == KeySeq.Find(cmp, InOrder(st), k) &&
      Partition(free + FreedSlots(d.freed), Slots(d.tree), n) &&
      (Search(cmp, st, k).None? ==> d.tree == st && d.freed.None?) &&
      (Search(cmp, st, k).Some? ==> d.freed.Some? && |InOrder(d.tree)| == |InOrder(st)| - 1)
  {
    var d := Delete(cmp, st, k, true);
    SearchFinds(cmp, st, k);
    DeleteSlots(cmp, st, k, true);
    DeleteOrdered(cmp, st, k, true);
    DeleteAvl(cmp, st, k);
    DeleteContents(cmp, st, k, true);
    DeleteFreesIffFound(cmp, st, k, true);
    KeySeq.RemoveLength(cmp, InOrder(st), k);
    if Search(cmp, st, k).None? {
      DeleteAbsentUnchanged(cmp, st, k, true);
      assert free + FreedSlots(d.freed) == free;
    } else {
      PartitionPush(free, Slots(st), n, d.freed.value);
    }
  }

  /** The push loop of avl_set_create, on an empty stack of size n. */
  method PushAllSlots(s: SlotStack, n: nat)
    requires s.Valid() && s.Contents() == [] && s.items.Length == n
    modifies s, s.items
    ensures s.Valid() && s.Contents() == Countdown(n)
  {
    var i := n;
    while i != 0
      invariant 0 <= i <= n && s.Valid() && s.items.Length == n
      invariant s.Contents() == Countdown(n)[..n - i]
      decreases i
    {
      s.Push(i - 1);
      i := i - 1;
    }
  }

  /**
   * The arena part of __avl_set_reserve_one: a new arena of n slots whose
   * first slots are a copy of the old ones and whose other slots are zeroed.
   */
  method GrowArena<K>(a: array<Element<K>>, n: nat) returns (b: array<Element<K>>)
    requires a.Length <= n
    ensures fresh(b) && b.Length == n && b[..a.Length] == a[..]
    ensures forall j :: a.Length <= j < n ==> b[j] == Zeroed()
  {
    b := new Element<K>[n](_ => Zeroed());
    var i := 0;
    while i < a.Length
      invariant 0 <= i <= a.Length && b[..i] == a[..i]
      invariant forall j :: i <= j < n ==> b[j] == Zeroed()
      modifies b
    {
      b[i] := a[i];
      i := i + 1;
    }
  }

  /**
   * The stack part of __avl_set_reserve_one: a new stack of size n holding
   * the old free indices, then every index from the old size up to n.
   */
  method GrowStack(s: SlotStack, size: nat, n: nat) returns (t: SlotStack)
    requires s.Valid() && s.tail <= size <= n
    ensures fresh(t) && fresh(t.items) && t.Valid() && t.items.Length == n
    ensures t.Contents() == s.Contents() + Range(size, n)
  {
    t := new SlotStack(n);
    var p := 0;
    while p < s.tail
      invariant 0 <= p <= s.tail && t.Valid() && t.items.Length == n
      invariant t.Contents() == s.items[..p]
      modifies t, t.items
    {
      t.Push(s.items[p]);
      p := p + 1;
    }
    var j := size;
    while j < n
      invariant size <= j <= n && t.Valid() && t.items.Length == n
      invariant t.Contents() == s.items[..s.tail] + Range(size, j)
      modifies t, t.items
    {
      t.Push(j);
      assert Range(size, j + 1) == Range(size, j) + [j];
      j := j + 1;
    }
  }

  class AvlSet<K(!new)> {
    const compare: (K, K) -> int
    var size: nat
    var rindex: nat
    var reserve: nat
    var slots: SlotStack
    var tree: array<Element<K>>
    ghost var root: Tree<K>
    ghost var released: seq<K>

    ghost predicate Valid()
      reads this, slots, slots.items, tree
    {
      IsComparator(compare) &&
      reserve > 0 && tree.Length == reserve && slots.items.Length == reserve && slots.Valid() &&
      Stored(tree[..], root) && WellFormed(compare, root) &&
      size == |InOrder(root)| && (root.Node? ==> rindex == root.idx) &&
      Partition(slots.Contents(), Slots(root), reserve) &&
      slots.tail + size == reserve &&
      FreeZeroed(tree[..], Slots(root))
    }

    /** The keys of the set, in order. */
    ghost function Contents(): seq<K>
      reads this
    {
      InOrder(root)
    }

    /**
     * avl_set_create with a comparator: capacity 8 unless the configuration
     * gives a positive reserve, no element, root index 0, every slot free
     * with slot 0 on top of the stack.
     */
    constructor (cmp: (K, K) -> int, cfgReserve: Option<nat>)
      requires IsComparator(cmp)
      ensures Valid() && fresh(tree) && fresh(slots) && fresh(slots.items)
      ensures reserve == if cfgReserve.Some? && cfgReserve.value > 0 then cfgReserve.value else DefaultReserve
      ensures compare == cmp && size == 0 && rindex == 0 && root == Nil && released == []
      ensures slots.Contents() == Countdown(reserve)
    {
      var n := DefaultReserve;
      if cfgReserve.Some? && cfgReserve.value > 0 {
        n := cfgReserve.value;
      }
      var arena := new Element<K>[n](_ => Zeroed());
      var stack := new SlotStack(n);
      PushAllSlots(stack, n);
      compare := cmp;
      size := 0;
      rindex := 0;
      reserve := n;
      slots := stack;
      tree := arena;
      root := Nil;
      released := [];
      CountdownPartition(n);
    }

    /** avl_set_size: the number of keys. */
    method Size() returns (n: nat)
      requires Valid()
      ensures n == |Contents()|
    {
      return size;
    }

    /**
     * avl_set_clear, corrected: the key of every occupied slot goes to the
     * destructor, the arena is zeroed, and the free stack is refilled as
     * avl_set_create fills it, so the set can be used again.
     */
    method Clear()
      requires Valid()
      modifies this, tree, slots, slots.items
      ensures Valid() && Contents() == [] && size == 0 && rindex == 0
      ensures reserve == old(reserve) && slots.Contents() == Countdown(reserve)
      ensures tree == old(tree) && slots == old(slots)
      ensures multiset(released) == multiset(old(released)) + multiset(old(Contents()))
    {
      assert FreeZeroed(tree[..], Slots(root));
      var keys := ScanKeys(tree, tree.Length, Slots(root));
      released := released + keys;
      KeysInTree(tree[..], root);
      Reset();
    }

    /**
     * avl_set_clear as the source writes it: the destructor gets the keys of
     * slots 0 .. size-1, whichever keys those slots hold, the arena is
     * zeroed and the free stack is emptied rather than refilled. The state
     * it leaves breaks Valid(); Clear is the corrected operation.
     */
    method ClearAsWritten()
      requires Valid()
      modifies this, tree, slots
      ensures size == 0 && rindex == 0 && root == Nil && released == old(released) + KeysIn(old(tree[..]), Below(old(size)), old(size))
      ensures tree == old(tree) && slots == old(slots) && reserve == old(reserve) && slots.Valid() && slots.Contents() == []
      ensures forall j :: 0 <= j < tree.Length ==> tree[j] == Zeroed()
    {
      var keys := ScanKeys(tree, size, Below(size));
      released := released + keys;
      forall j | 0 <= j < tree.Length {
        tree[j] := Zeroed();
      }
      size := 0;
      rindex := 0;
      root := Nil;
      slots.Clear();
    }

    /** The rest of avl_set_clear: zero the arena, empty the set, refill the free stack. */
    method Reset()
      requires IsComparator(compare) && reserve > 0 && tree.Length == reserve
      requires slots.items.Length == reserve && slots.Valid()
      modifies this, tree, slots, slots.items
      ensures Valid() && root == Nil && size == 0 && rindex == 0 && released == old(released)
      ensures reserve == old(reserve) && slots.Contents() == Countdown(reserve)
      ensures tree == old(tree) && slots == old(slots)
    {
      forall j | 0 <= j < tree.Length {
        tree[j] := Zeroed();
      }
      size := 0;
      rindex := 0;
      root := Nil;
      slots.Clear();
      PushAllSlots(slots, reserve);
      CountdownPartition(reserve);
    }

    /**
     * avl_set_search: the stored key that compares equal to k, if any; an
     * empty set answers without descending.
     */
    method Search(k: K) returns (r: Option<K>)
      requires Valid()
      ensures r == KeySeq.Find(compare, Contents(), k)
    {
      SearchFinds(compare, root, k);
      if size == 0 {
        return None;
      }
      var e := SearchFrom(tree, compare, rindex, k, root);
      if e.None? {
        return None;
      }
      return tree[e.value].key;
    }

    /** The free slot on top of the stack. */
    ghost function Top(): nat
      reads this, slots, slots.items
      requires slots.Valid() && slots.tail > 0
    {
      slots.items[slots.tail - 1]
    }

    /**
     * __avl_set_insert below the link e to st: a new node in the popped slot
     * at the empty edge, or the key replaced in place (the old key released)
     * when it compares equal; every node on the way back is rebalanced.
     * Returns the slot of the new subtree root.
     */
    method InsertAt(e: Option<nat>, k: K, ghost st: Tree<K>) returns (nr: nat)
      requires slots.Valid() && slots.tail > 0 && Top() < tree.Length && Top() !in Slots(st)
      requires Stored(tree[..], st) && UniqueSlots(st)
      modifies this, tree, slots
      ensures tree == old(tree) && slots == old(slots) && reserve == old(reserve)
      ensures rindex == old(rindex) && root == old(root)
      ensures Stored(tree[..], AvlTree.Insert(compare, st, k, old(Top())))
      ensures Agree(old(tree[..]), tree[..], Slots(AvlTree.Insert(compare, st, k, old(Top()))))
      ensures slots.Valid()
      ensures AvlTree.Search(compare, st, k).None? ==>
        size == old(size) + 1 && old(slots.Contents()) == slots.Contents() + [old(Top())] &&
        released == old(released)
      ensures AvlTree.Search(compare, st, k).Some? ==>
        size == old(size) && slots.Contents() == old(slots.Contents()) &&
        released == old(released) + [AvlTree.Search(compare, st, k).value]
      requires Link(st) == e
      ensures nr == AvlTree.Insert(compare, st, k, old(Top())).idx
      decreases st, 1
    {
      if e.None? {
        var _, slot := slots.Pop();
        tree[slot] := Element(None, None, 1, Some(k));
        size := size + 1;
        return slot;
      }
      var i := e.value;
      var c := compare(k, tree[i].key.value);
      if c == 0 {
        released := released + [tree[i].key.value];
        tree[i] := tree[i].(key := Some(k));
        StoredAgree(old(tree[..]), tree[..], {i}, st.left);
        StoredAgree(old(tree[..]), tree[..], {i}, st.right);
        return i;
      }
      nr := InsertBelow(i, k, st);
    }

    /** The descent of __avl_set_insert from the node in slot i, whose key differs from k. */
    method InsertBelow(i: nat, k: K, ghost st: Tree<K>) returns (nr: nat)
      requires slots.Valid() && slots.tail > 0 && Top() < tree.Length && Top() !in Slots(st)
      requires Stored(tree[..], st) && UniqueSlots(st)
      modifies this, tree, slots
      ensures tree == old(tree) && slots == old(slots) && reserve == old(reserve)
      ensures rindex == old(rindex) && root == old(root)
      ensures Stored(tree[..], AvlTree.Insert(compare, st, k, old(Top())))
      ensures Agree(old(tree[..]), tree[..], Slots(AvlTree.Insert(compare, st, k, old(Top()))))
      ensures slots.Valid()
      ensures AvlTree.Search(compare, st, k).None? ==>
        size == old(size) + 1 && old(slots.Contents()) == slots.Contents() + [old(Top())] &&
        released == old(released)
      ensures AvlTree.Search(compare, st, k).Some? ==>
        size == old(size) && slots.Contents() == old(slots.Contents()) &&
        released == old(released) + [AvlTree.Search(compare, st, k).value]
      requires st.Node? && st.idx == i && compare(k, st.key) != 0
      ensures nr == AvlTree.Insert(compare, st, k, old(Top())).idx
      decreases st, 0
    {
      ghost var top := Top();
      ghost var a0 := tree[..];
      var left := compare(k, tree[i].key.value) < 0;
      ghost var ch := AvlTree.Insert(compare, if left then st.left else st.right, k, top);
      ghost var u := if left then Node(ch, i, st.key, st.h, st.right) else Node(st.left, i, st.key, st.h, ch);
      var link := InsertAt(if left then tree[i].left else tree[i].right, k, if left then st.left else st.right);
      InsertSlots(compare, if left then st.left else st.right, k, top);
      StoredAgree(a0, tree[..], Slots(ch), if left then st.right else st.left);
      ghost var a1 := tree[..];
      nr := RelinkInsertAt(tree, i, left, link, u);
      RebalanceInsertKeeps(u);
      AgreeTrans(a0, a1, tree[..], Slots(ch), Slots(u));
      AgreeWiden(a0, tree[..], Slots(ch) + Slots(u), Slots(u));
      assert AvlTree.Insert(compare, st, k, top) == RebalanceInsert(u);
    }

    /**
     * __avl_set_delete below the link e to st (the corrected variant, which
     * rotates on an even sibling). When this frame or one below finds the
     * key and replace is false, the key is released and the size drops by
     * one. Returns the new link.
     */
    method DeleteAt(e: Option<nat>, k: K, replace: bool, ghost st: Tree<K>) returns (nr: Option<nat>)
      requires slots.Valid() && slots.tail + |InOrder(st)| <= slots.items.Length
      requires Stored(tree[..], st) && UniqueSlots(st) && |InOrder(st)| <= size
      modifies this, tree, slots, slots.items
      ensures tree == old(tree) && slots == old(slots) && reserve == old(reserve)
      ensures rindex == old(rindex) && root == old(root) && slots.Valid()
      ensures Agree(old(tree[..]), tree[..], Slots(st))
      ensures Stored(tree[..], AvlTree.Delete(compare, st, k, true).tree)
      ensures AvlTree.Delete(compare, st, k, true).freed.Some? ==> AvlTree.Delete(compare, st, k, true).freed.value < tree.Length && tree[AvlTree.Delete(compare, st, k, true).freed.value] == Zeroed()
      ensures slots.Contents() == old(slots.Contents()) + FreedSlots(AvlTree.Delete(compare, st, k, true).freed)
      ensures size == old(size) - (if !replace && AvlTree.Search(compare, st, k).Some? then 1 else 0)
      ensures released == old(released) + (if !replace && AvlTree.Search(compare, st, k).Some? then [AvlTree.Search(compare, st, k).value] else [])
      requires Link(st) == e
      ensures nr == Link(AvlTree.Delete(compare, st, k, true).tree)
      decreases st, 3
    {
      if e.None? {
        return None;
      }
      var i := e.value;
      var c := compare(k, tree[i].key.value);
      if c < 0 {
        var self := DescendLeft(i, k, replace, st);
        return Some(self);
      } else if c > 0 {
        var self := DescendRight(i, k, replace, st);
        return Some(self);
      }
      nr := DeleteHit(i, k, replace, st);
    }

    /** The descent of __avl_set_delete into the left subtree of the node in slot i. */
    method DescendLeft(i: nat, k: K, replace: bool, ghost st: Tree<K>) returns (nr: nat)
      requires slots.Valid() && slots.tail + |InOrder(st)| <= slots.items.Length
      requires Stored(tree[..], st) && UniqueSlots(st) && |InOrder(st)| <= size
      modifies this, tree, slots, slots.items
      ensures tree == old(tree) && slots == old(slots) && reserve == old(reserve)
      ensures rindex == old(rindex) && root == old(root) && slots.Valid()
      ensures Agree(old(tree[..]), tree[..], Slots(st))
      ensures Stored(tree[..], AvlTree.Delete(compare, st, k, true).tree)
      ensures AvlTree.Delete(compare, st, k, true).freed.Some? ==> AvlTree.Delete(compare, st, k, true).freed.value < tree.Length && tree[AvlTree.Delete(compare, st, k, true).freed.value] == Zeroed()
      ensures slots.Contents() == old(slots.Contents()) + FreedSlots(AvlTree.Delete(compare, st, k, true).freed)
      ensures size == old(size) - (if !replace && AvlTree.Search(compare, st, k).Some? then 1 else 0)
      ensures released == old(released) + (if !replace && AvlTree.Search(compare, st, k).Some? then [AvlTree.Search(compare, st, k).value] else [])
      requires st.Node? && st.idx == i && compare(k, st.key) < 0
      ensures AvlTree.Delete(compare, st, k, true).tree.Node?
      ensures nr == AvlTree.Delete(compare, st, k, true).tree.idx
      decreases st, 1
    {
      ghost var a0 := tree[..];
      var nl := DeleteAt(tree[i].left, k, replace, st.left);
      ghost var a1 := tree[..];
      DescendLeftReady(compare, st, k, a0, a1);
      nr := RelinkLeftAt(tree, i, nl, LeftAfter(compare, st, k));
      DescendLeftDone(compare, st, k, a0, a1, tree[..]);
    }

    /** The descent of __avl_set_delete into the right subtree of the node in slot i. */
    method DescendRight(i: nat, k: K, replace: bool, ghost st: Tree<K>) returns (nr: nat)
      requires slots.Valid() && slots.tail + |InOrder(st)| <= slots.items.Length
      requires Stored(tree[..], st) && UniqueSlots(st) && |InOrder(st)| <= size
      modifies this, tree, slots, slots.items
      ensures tree == old(tree) && slots == old(slots) && reserve == old(reserve)
      ensures rindex == old(rindex) && root == old(root) && slots.Valid()
      ensures Agree(old(tree[..]), tree[..], Slots(st))
      ensures Stored(tree[..], AvlTree.Delete(compare, st, k, true).tree)
      ensures AvlTree.Delete(compare, st, k, true).freed.Some? ==> AvlTree.Delete(compare, st, k, true).freed.value < tree.Length && tree[AvlTree.Delete(compare, st, k, true).freed.value] == Zeroed()
      ensures slots.Contents() == old(slots.Contents()) + FreedSlots(AvlTree.Delete(compare, st, k, true).freed)
      ensures size == old(size) - (if !replace && AvlTree.Search(compare, st, k).Some? then 1 else 0)
      ensures released == old(released) + (if !replace && AvlTree.Search(compare, st, k).Some? then [AvlTree.Search(compare, st, k).value] else [])
      requires st.Node? && st.idx == i && compare(k, st.key) > 0
      ensures AvlTree.Delete(compare, st, k, true).tree.Node?
      ensures nr == AvlTree.Delete(compare, st, k, true).tree.idx
      decreases st, 1
    {
      ghost var a0 := tree[..];
      var nrr := DeleteAt(tree[i].right, k, replace, st.right);
      ghost var a1 := tree[..];
      DescendRightReady(compare, st, k, a0, a1);
      nr := RelinkRightAt(tree, i, nrr, RightAfter(compare, st, k));
      DescendRightDone(compare, st, k, a0, a1, tree[..]);
    }

    /**
     * The frame of __avl_set_delete that holds the key: the node is
     * unlinked, and unless it is only being replaced its key is released
     * and the size drops by one.
     */
    method DeleteHit(i: nat, k: K, replace: bool, ghost st: Tree<K>) returns (nr: Option<nat>)
      requires slots.Valid() && slots.tail + |InOrder(st)| <= slots.items.Length
      requires Stored(tree[..], st) && UniqueSlots(st) && |InOrder(st)| <= size
      modifies this, tree, slots, slots.items
      ensures tree == old(tree) && slots == old(slots) && reserve == old(reserve)
      ensures rindex == old(rindex) && root == old(root) && slots.Valid()
      ensures Agree(old(tree[..]), tree[..], Slots(st))
      ensures Stored(tree[..], AvlTree.Delete(compare, st, k, true).tree)
      ensures AvlTree.Delete(compare, st, k, true).freed.Some? ==> AvlTree.Delete(compare, st, k, true).freed.value < tree.Length && tree[AvlTree.Delete(compare, st, k, true).freed.value] == Zeroed()
      ensures slots.Contents() == old(slots.Contents()) + FreedSlots(AvlTree.Delete(compare, st, k, true).freed)
      ensures size == old(size) - (if !replace && AvlTree.Search(compare, st, k).Some? then 1 else 0)
      ensures released == old(released) + (if !replace && AvlTree.Search(compare, st, k).Some? then [AvlTree.Search(compare, st, k).value] else [])
      requires st.Node? && st.idx == i && compare(k, st.key) == 0
      ensures nr == Link(AvlTree.Delete(compare, st, k, true).tree)
      decreases st, 2
    {
      var record := tree[i];
      nr := Unlink(i, k, st);
      if !replace {
        released := released + [record.key.value];
        size := size - 1;
      }
    }

    /**
     * Unlinking the node that holds the key: a node with two children takes
     * its successor's key when its right subtree is taller, its
     * predecessor's otherwise, and that key is deleted below it; a node
     * with at most one child is spliced out.
     */
    method Unlink(i: nat, k: K, ghost st: Tree<K>) returns (nr: Option<nat>)
      requires slots.Valid() && slots.tail + |InOrder(st)| <= slots.items.Length
      requires Stored(tree[..], st) && UniqueSlots(st) && |InOrder(st)| <= size
      modifies this, tree, slots, slots.items
      ensures tree == old(tree) && slots == old(slots) && reserve == old(reserve)
      ensures rindex == old(rindex) && root == old(root) && slots.Valid()
      ensures Agree(old(tree[..]), tree[..], Slots(st))
      ensures Stored(tree[..], AvlTree.Delete(compare, st, k, true).tree)
      ensures AvlTree.Delete(compare, st, k, true).freed.Some? ==> AvlTree.Delete(compare, st, k, true).freed.value < tree.Length && tree[AvlTree.Delete(compare, st, k, true).freed.value] == Zeroed()
      ensures slots.Contents() == old(slots.Contents()) + FreedSlots(AvlTree.Delete(compare, st, k, true).freed)
      ensures size == old(size) && released == old(released)
      requires st.Node? && st.idx == i && compare(k, st.key) == 0
      ensures nr == Link(AvlTree.Delete(compare, st, k, true).tree)
      decreases st, 1
    {
      if tree[i].left.Some? && tree[i].right.Some? {
        var bf := BalanceOf(tree, i, st);
        if bf < 0 {
          ReplaceBySuccessor(i, st);
        } else {
          ReplaceByPredecessor(i, st);
        }
        nr := Some(i);
      } else {
        nr := Splice(i, st);
      }
    }

    /**
     * A node with at most one child leaves the tree: its slot is zeroed and
     * pushed on the free stack, and its child, if any, takes its place.
     */
    method Splice(i: nat, ghost st: Tree<K>) returns (nr: Option<nat>)
      requires slots.Valid() && slots.tail < slots.items.Length
      requires Stored(tree[..], st) && UniqueSlots(st)
      requires st.Node? && st.idx == i && (st.left.Nil? || st.right.Nil?)
      modifies tree, slots, slots.items
      ensures slots.Valid() && slots.Contents() == old(slots.Contents()) + [i]
      ensures Agree(old(tree[..]), tree[..], Slots(st)) && tree[i] == Zeroed()
      ensures Stored(tree[..], UpdateHeight(if st.left.Nil? then st.right else st.left))
      ensures nr == Link(if st.left.Nil? then st.right else st.left)
    {
      var left := tree[i].left;
      var right := tree[i].right;
      ghost var a0 := tree[..];
      tree[i] := Zeroed();
      slots.Push(i);
      nr := if left.None? then right else left;
      ghost var child := if st.left.Nil? then st.right else st.left;
      StoredAgree(a0, tree[..], {i}, child);
      if nr.Some? {
        ghost var a1 := tree[..];
        UpdateHeightAt(tree, nr.value, child);
        AgreeTrans(a0, a1, tree[..], {i}, {nr.value});
      }
    }

    /**
     * The right-taller case of a node with two children: the leftmost key of
     * the right subtree replaces the node's key and is deleted from it.
     */
    method ReplaceBySuccessor(i: nat, ghost st: Tree<K>)
      requires slots.Valid() && slots.tail + |InOrder(st)| <= slots.items.Length
      requires Stored(tree[..], st) && UniqueSlots(st) && |InOrder(st)| <= size
      modifies this, tree, slots, slots.items
      ensures tree == old(tree) && slots == old(slots) && reserve == old(reserve)
      ensures rindex == old(rindex) && root == old(root) && slots.Valid()
      ensures Agree(old(tree[..]), tree[..], Slots(st))
      ensures Stored(tree[..], UpdateHeight(Node(st.left, i, MinKey(st.right), st.h, AvlTree.Delete(compare, st.right, MinKey(st.right), true).tree)))
      ensures AvlTree.Delete(compare, st.right, MinKey(st.right), true).freed.Some? ==> AvlTree.Delete(compare, st.right, MinKey(st.right), true).freed.value < tree.Length && tree[AvlTree.Delete(compare, st.right, MinKey(st.right), true).freed.value] == Zeroed()
      ensures slots.Contents() == old(slots.Contents()) + FreedSlots(AvlTree.Delete(compare, st.right, MinKey(st.right), true).freed)
      ensures size == old(size) && released == old(released)
      requires st.Node? && st.idx == i && st.left.Node? && st.right.Node?
      decreases st, 0
    {
      var victim := MinSlot(tree, tree[i].right.value, st.right);
      var vk := tree[victim].key.value;
      ghost var a0 := tree[..];
      SetKeyAt(tree, i, vk, st);
      ghost var a1 := tree[..];
      var nright := DeleteAt(tree[i].right, vk, true, st.right);
      ghost var d := AvlTree.Delete(compare, st.right, vk, true);
      DeleteSlots(compare, st.right, vk, true);
      StoredAgree(a1, tree[..], Slots(st.right), st.left);
      ghost var a2 := tree[..];
      SetLinkAt(tree, i, false, nright, Node(st.left, i, vk, st.h, d.tree));
      AgreeTrans(a0, a1, a2, {i}, Slots(st.right));
      AgreeTrans(a0, a2, tree[..], {i} + Slots(st.right), {i});
      AgreeWiden(a0, tree[..], {i} + Slots(st.right) + {i}, Slots(st));
    }

    /**
     * The left-taller-or-even case of a node with two children: the
     * rightmost key of the left subtree replaces the node's key and is
     * deleted from it.
     */
    method ReplaceByPredecessor(i: nat, ghost st: Tree<K>)
      requires slots.Valid() && slots.tail + |InOrder(st)| <= slots.items.Length
      requires Stored(tree[..], st) && UniqueSlots(st) && |InOrder(st)| <= size
      modifies this, tree, slots, slots.items
      ensures tree == old(tree) && slots == old(slots) && reserve == old(reserve)
      ensures rindex == old(rindex) && root == old(root) && slots.Valid()
      ensures Agree(old(tree[..]), tree[..], Slots(st))
      ensures Stored(tree[..], UpdateHeight(Node(AvlTree.Delete(compare, st.left, MaxKey(st.left), true).tree, i, MaxKey(st.left), st.h, st.right)))
      ensures AvlTree.Delete(compare, st.left, MaxKey(st.left), true).freed.Some? ==> AvlTree.Delete(compare, st.left, MaxKey(st.left), true).freed.value < tree.Length && tree[AvlTree.Delete(compare, st.left, MaxKey(st.left), true).freed.value] == Zeroed()
      ensures slots.Contents() == old(slots.Contents()) + FreedSlots(AvlTree.Delete(compare, st.left, MaxKey(st.left), true).freed)
      ensures size == old(size) && released == old(released)
      requires st.Node? && st.idx == i && st.left.Node? && st.right.Node?
      decreases st, 0
    {
      var victim := MaxSlot(tree, tree[i].left.value, st.left);
      var vk := tree[victim].key.value;
      ghost var a0 := tree[..];
      SetKeyAt(tree, i, vk, st);
      ghost var a1 := tree[..];
      var nleft := DeleteAt(tree[i].left, vk, true, st.left);
      ghost var d := AvlTree.Delete(compare, st.left, vk, true);
      DeleteSlots(compare, st.left, vk, true);
      StoredAgree(a1, tree[..], Slots(st.left), st.right);
      ghost var a2 := tree[..];
      SetLinkAt(tree, i, true, nleft, Node(d.tree, i, vk, st.h, st.right));
      AgreeTrans(a0, a1, a2, {i}, Slots(st.left));
      AgreeTrans(a0, a2, tree[..], {i} + Slots(st.left), {i});
      AgreeWiden(a0, tree[..], {i} + Slots(st.left) + {i}, Slots(st));
    }

    /**
     * __avl_set_reserve_one: when the arena is full, a new arena of
     * size + size / 2 + 8 slots holding the old slots at the same indices,
     * and a new free stack holding the old free indices followed by every
     * new index; otherwise nothing changes.
     */
    method ReserveOne()
      requires Valid()
      modifies this
      ensures Valid() && root == old(root) && size == old(size) && rindex == old(rindex)
      ensures released == old(released) && size < reserve
      ensures old(size) < old(reserve) ==>
        reserve == old(reserve) && tree == old(tree) && slots == old(slots)
      ensures old(size) >= old(reserve) ==>
        reserve == old(size) + old(size) / 2 + DefaultReserve &&
        fresh(tree) && fresh(slots) && fresh(slots.items) && tree[..old(reserve)] == old(tree[..]) &&
        slots.Contents() == old(slots.Contents()) + Range(old(reserve), reserve)
    {
      if size < reserve {
        return;
      }
      var n := size + size / 2 + DefaultReserve;
      var ntree := GrowArena(tree, n);
      var nslots := GrowStack(slots, reserve, n);
      StoredGrow(tree[..], ntree[..], root);
      PartitionGrow(slots.Contents(), Slots(root), reserve, n);
      tree := ntree;
      slots := nslots;
      reserve := n;
    }

    /**
     * avl_set_insert: 0 when k was absent and is now in the set, 1 when a
     * stored key compared equal and k replaced it (the old key released).
     * An empty set takes the key without growing; otherwise the arena grows
     * first if it is full.
     */
    method Insert(k: K) returns (r: int)
      requires Valid()
      modifies this, tree, slots, slots.items
      ensures Valid()
      ensures Contents() == KeySeq.Insert(compare, old(Contents()), k)
      ensures r == if KeySeq.Find(compare, old(Contents()), k).None? then 0 else 1
      ensures size == old(size) + 1 - r
      ensures released == old(released) +
        (if r == 1 then [KeySeq.Find(compare, old(Contents()), k).value] else [])
      ensures old(size) == 0 ==> r == 0
      ensures old(size) == 0 || old(size) < old(reserve) ==> reserve == old(reserve)
      ensures old(size) != 0 && old(size) >= old(reserve) ==>
        reserve == old(size) + old(size) / 2 + DefaultReserve
      ensures tree == old(tree) || fresh(tree)
      ensures slots == old(slots) || (fresh(slots) && fresh(slots.items))
    {
      if size != 0 {
        ReserveOne();
      }
      r := InsertRoot(k);
    }

    /** The insertion of avl_set_insert from the root, once a free slot is sure to exist. */
    method InsertRoot(k: K) returns (r: int)
      requires Valid() && size < reserve
      modifies this, tree, slots
      ensures Valid() && tree == old(tree) && slots == old(slots) && reserve == old(reserve)
      ensures Contents() == KeySeq.Insert(compare, old(Contents()), k)
      ensures r == if KeySeq.Find(compare, old(Contents()), k).None? then 0 else 1
      ensures size == old(size) + 1 - r
      ensures released == old(released) +
        (if r == 1 then [KeySeq.Find(compare, old(Contents()), k).value] else [])
    {
      var cur := size;
      ghost var st := root;
      ghost var free := slots.Contents();
      ghost var a0 := tree[..];
      ghost var top := Top();
      var e := if size == 0 then None else Some(rindex);
      var nroot := InsertAt(e, k, root);
      InsertKeepsInvariant(compare, st, k, free, reserve, a0, tree[..]);
      root := AvlTree.Insert(compare, st, k, top);
      rindex := nroot;
      r := if size > cur then 0 else 1;
      if AvlTree.Search(compare, st, k).None? {
        assert slots.Contents() == free[..|free| - 1];
      } else {
        assert slots.Contents() == free;
      }
    }

    /**
     * avl_set_delete: -1 on an empty set or when no stored key compares
     * equal to k (the root index is then left as it was); otherwise the key
     * is released, its slot is freed and 0 is returned.
     */
    method Delete(k: K) returns (r: int)
      requires Valid()
      modifies this, tree, slots, slots.items
      ensures Valid()
      ensures Contents() == KeySeq.Remove(compare, old(Contents()), k)
      ensures r == if KeySeq.Find(compare, old(Contents()), k).None? then -1 else 0
      ensures size == old(size) - 1 - r
      ensures released == old(released) +
        (if r == 0 then [KeySeq.Find(compare, old(Contents()), k).value] else [])
      ensures r == -1 ==> rindex == old(rindex) && Contents() == old(Contents())
      ensures tree == old(tree) && slots == old(slots)
    {
      if size == 0 {
        return -1;
      }
      var recSize := size;
      ghost var st := root;
      ghost var free := slots.Contents();
      ghost var a0 := tree[..];
      var nroot := DeleteAt(Some(rindex), k, false, root);
      DeleteKeepsInvariant(compare, st, k, free, reserve, a0, tree[..]);
      if recSize == size {
        assert AvlTree.Delete(compare, st, k, true).tree == st && slots.Contents() == free;
        return -1;
      }
      SetRoot(nroot, AvlTree.Delete(compare, st, k, true).tree);
      r := 0;
    }

    /**
     * The end of avl_set_delete after a removal: the slot of the new root
     * becomes the root index (0 once the set is empty).
     */
    method SetRoot(nroot: Option<nat>, ghost t: Tree<K>)
      requires IsComparator(compare) && reserve > 0 && tree.Length == reserve
      requires slots.items.Length == reserve && slots.Valid()
      requires Stored(tree[..], t) && WellFormed(compare, t) && size == |InOrder(t)| && nroot == Link(t)
      requires Partition(slots.Contents(), Slots(t), reserve) && FreeZeroed(tree[..], Slots(t))
      requires slots.tail + size == reserve
      modifies this
      ensures Valid() && root == t && rindex == (if nroot.Some? then nroot.value else 0)
      ensures tree == old(tree) && slots == old(slots) && reserve == old(reserve)
      ensures size == old(size) && released == old(released)
    {
      root := t;
      rindex := if nroot.Some? then nroot.value else 0;
    }
  }

  /** avl_set_create: no set without a comparator. */
  method Create<K(!new)>(cmp: Option<(K, K) -> int>, cfgReserve: Option<nat>) returns (s: Option<AvlSet<K>>)
    requires cmp.Some? ==> IsComparator(cmp.value)
    ensures cmp.None? <==> s.None?
    ensures s.Some? ==>
      (s.value.Valid() && s.value.Contents() == [] && s.value.compare == cmp.value &&
       fresh(s.value) && fresh(s.value.tree) && fresh(s.value.slots) && fresh(s.value.slots.items) &&
       s.value.reserve == (if cfgReserve.Some? && cfgReserve.value > 0 then cfgReserve.value else DefaultReserve))
  {
    if cmp.None? {
      return None;
    }
    var created := new AvlSet(cmp.value, cfgReserve);
    return Some(created);
  }
}
