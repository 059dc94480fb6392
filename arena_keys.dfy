/**
 * The keys an arena holds, slot by slot: avl_set_clear hands the key of
 * every occupied slot to the key destructor, and these lemmas say that the
 * slots of a stored tree hold exactly the tree's keys.
 */
module ArenaKeys {
  import opened Wrappers
  import opened AvlTree
  import opened Arena

  /**
   * The keys held by the slots below n that belong to s, in slot order: what
   * a scan of the arena that destructs every non-NULL key of those slots
   * hands to the destructor.
   */
  ghost function KeysIn<K>(a: seq<Element<K>>, s: set<nat>, n: nat): seq<K>
    requires n <= |a|
  {
    if n == 0 then [] else KeysIn(a, s, n - 1) + KeyAt(a, s, n - 1)
  }

  /**
   * The destructor scan of avl_set_clear: the non-NULL keys of the slots
   * 0 .. n-1, in slot order. Outside live every slot below n holds NULL, so
   * these are the keys KeysIn gathers from live.
   */
  method ScanKeys<K>(a: array<Element<K>>, n: nat, ghost live: set<nat>) returns (keys: seq<K>)
    requires n <= a.Length
    requires forall j :: 0 <= j < n && j !in live ==> a[j].key.None?
    ensures keys == KeysIn(a[..], live, n)
  {
    keys := [];
    var i := 0;
    while i < n
      invariant 0 <= i <= n && keys == KeysIn(a[..], live, i)
    {
      if a[i].key.Some? {
        keys := keys + [a[i].key.value];
      }
      i := i + 1;
    }
  }

  /** The slots 0 .. n-1. */
  function Below(n: nat): (s: set<nat>)
    ensures forall j: nat :: j in s <==> j < n
  {
    if n == 0 then {} else Below(n - 1) + {n - 1}
  }

  /** The key slot j contributes to KeysIn(a, s, _), if any. */
  ghost function KeyAt<K>(a: seq<Element<K>>, s: set<nat>, j: nat): seq<K>
    requires j < |a|
  {
    if j in s && a[j].key.Some? then [a[j].key.value] else []
  }

  /** The same keys as KeysIn, gathered as a multiset. */
  ghost function KeyBag<K>(a: seq<Element<K>>, s: set<nat>, n: nat): multiset<K>
    requires n <= |a|
  {
    if n == 0 then multiset{} else KeyBag(a, s, n - 1) + multiset(KeyAt(a, s, n - 1))
  }

  lemma {:induction false} KeysInBag<K>(a: seq<Element<K>>, s: set<nat>, n: nat)
    requires n <= |a|
    ensures multiset(KeysIn(a, s, n)) == KeyBag(a, s, n)
  {
    if n == 0 {
      assert KeysIn(a, s, n) == [] && KeyBag(a, s, n) == multiset{};
    } else {
      var j := n - 1;
      calc {
        multiset(KeysIn(a, s, n));
      == { KeysInStep(a, s, n); }
        multiset(KeysIn(a, s, j)) + multiset(KeyAt(a, s, j));
      == { KeysInBag(a, s, j); }
        KeyBag(a, s, j) + multiset(KeyAt(a, s, j));
      == { KeyBagStep(a, s, n); }
        KeyBag(a, s, n);
      }
    }
  }

  /** One more slot adds its key, if any. */
  lemma KeysInStep<K>(a: seq<Element<K>>, s: set<nat>, n: nat)
    requires 0 < n <= |a|
    ensures multiset(KeysIn(a, s, n)) == multiset(KeysIn(a, s, n - 1)) + multiset(KeyAt(a, s, n - 1))
  {
  }

  /** Splitting the slots splits the keys. */
  lemma {:induction false} KeyBagSplit<K>(a: seq<Element<K>>, s1: set<nat>, s2: set<nat>, n: nat)
    requires n <= |a| && s1 !! s2
    ensures KeyBag(a, s1 + s2, n) == KeyBag(a, s1, n) + KeyBag(a, s2, n)
  {
    if n > 0 {
      var j := n - 1;
      KeyBagSplit(a, s1, s2, j);
      KeyBagSplitStep(a, s1, s2, j);
    }
  }

  lemma KeyBagSplitStep<K>(a: seq<Element<K>>, s1: set<nat>, s2: set<nat>, j: nat)
    requires j < |a| && s1 !! s2
    requires KeyBag(a, s1 + s2, j) == KeyBag(a, s1, j) + KeyBag(a, s2, j)
    ensures KeyBag(a, s1 + s2, j + 1) == KeyBag(a, s1, j + 1) + KeyBag(a, s2, j + 1)
  {
    var n := j + 1;
    var m1, m2 := multiset(KeyAt(a, s1, j)), multiset(KeyAt(a, s2, j));
    calc {
      KeyBag(a, s1 + s2, n);
    == { KeyBagStep(a, s1 + s2, n); }
      KeyBag(a, s1 + s2, j) + multiset(KeyAt(a, s1 + s2, j));
    == { KeyAtSplit(a, s1, s2, j); }
      (KeyBag(a, s1, j) + KeyBag(a, s2, j)) + (m1 + m2);
    == { Regroup(KeyBag(a, s1, j), KeyBag(a, s2, j), m1, m2); }
      (KeyBag(a, s1, j) + m1) + (KeyBag(a, s2, j) + m2);
    == { KeyBagStep(a, s1, n); KeyBagStep(a, s2, n); }
      KeyBag(a, s1, n) + KeyBag(a, s2, n);
    }
  }

  lemma KeyBagStep<K>(a: seq<Element<K>>, s: set<nat>, n: nat)
    requires 0 < n <= |a|
    ensures KeyBag(a, s, n) == KeyBag(a, s, n - 1) + multiset(KeyAt(a, s, n - 1))
  {
  }

  lemma Regroup<K>(b1: multiset<K>, b2: multiset<K>, m1: multiset<K>, m2: multiset<K>)
    ensures (b1 + b2) + (m1 + m2) == (b1 + m1) + (b2 + m2)
  {
  }

  lemma KeyAtSplit<K>(a: seq<Element<K>>, s1: set<nat>, s2: set<nat>, j: nat)
    requires j < |a| && s1 !! s2
    ensures multiset(KeyAt(a, s1 + s2, j)) == multiset(KeyAt(a, s1, j)) + multiset(KeyAt(a, s2, j))
  {
    if j in s1 {
      assert j !in s2;
    }
  }

  /** A single slot contributes its own key, if it lies below n. */
  lemma {:induction false} KeyBagSingle<K>(a: seq<Element<K>>, i: nat, n: nat)
    requires n <= |a| && i < |a| && a[i].key.Some?
    ensures i < n ==> KeyBag(a, {i}, n) == multiset{a[i].key.value}
    ensures n <= i ==> KeyBag(a, {i}, n) == multiset{}
  {
    if n > 0 {
      var j := n - 1;
      KeyBagSingle(a, i, j);
      KeyBagSingleStep(a, i, j);
    }
  }

  lemma KeyBagSingleStep<K>(a: seq<Element<K>>, i: nat, j: nat)
    requires j < |a| && i < |a| && a[i].key.Some?
    requires i < j ==> KeyBag(a, {i}, j) == multiset{a[i].key.value}
    requires j <= i ==> KeyBag(a, {i}, j) == multiset{}
    ensures i < j + 1 ==> KeyBag(a, {i}, j + 1) == multiset{a[i].key.value}
    ensures j + 1 <= i ==> KeyBag(a, {i}, j + 1) == multiset{}
  {
    KeyBagStep(a, {i}, j + 1);
    if j == i {
      assert KeyAt(a, {i}, j) == [a[i].key.value];
    } else {
      assert j !in {i};
      assert KeyAt(a, {i}, j) == [];
    }
  }

  /** Slots that all hold NULL keys contribute nothing. */
  lemma {:induction false} KeysInNull<K>(a: seq<Element<K>>, s: set<nat>, n: nat)
    requires n <= |a| && forall j :: 0 <= j < |a| && j in s ==> a[j].key.None?
    ensures KeysIn(a, s, n) == []
  {
    if n > 0 {
      KeysInNull(a, s, n - 1);
    }
  }

  /** The slots of a stored tree hold exactly its keys. */
  lemma KeysInTree<K>(a: seq<Element<K>>, t: Tree<K>)
    requires Stored(a, t) && UniqueSlots(t)
    ensures multiset(KeysIn(a, Slots(t), |a|)) == multiset(InOrder(t))
  {
    KeysInBag(a, Slots(t), |a|);
    KeyBagTree(a, t);
  }

  lemma {:induction false} KeyBagTree<K>(a: seq<Element<K>>, t: Tree<K>)
    requires Stored(a, t) && UniqueSlots(t)
    ensures KeyBag(a, Slots(t), |a|) == multiset(InOrder(t))
  {
    match t
    case Nil =>
      KeysInNull(a, {}, |a|);
      KeysInBag(a, {}, |a|);
    case Node(l, i, k, h, r) =>
      KeyBagTree(a, l);
      KeyBagTree(a, r);
      KeyBagSplit(a, Slots(l), {i}, |a|);
      KeyBagSplit(a, Slots(l) + {i}, Slots(r), |a|);
      KeyBagSingle(a, i, |a|);
  }
}
