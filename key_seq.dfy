/**
 * The abstract contents of an AVL set: its keys in in-order. For a
 * well-formed tree this sequence is strictly increasing under the
 * comparator. Find, Insert and Remove below are the reference meanings of
 * search, insert and delete, written as a walk along the sorted sequence
 * instead of a descent through the tree.
 */
module KeySeq {
  import opened Wrappers
  import opened Comparator

  /** Strictly increasing: no two keys of s compare equal. */
  ghost predicate Sorted<K>(cmp: (K, K) -> int, s: seq<K>) {
    forall i, j :: 0 <= i < j < |s| ==> cmp(s[i], s[j]) < 0
  }

  /** Every key of s sorts strictly before k. */
  ghost predicate AllBelow<K>(cmp: (K, K) -> int, s: seq<K>, k: K) {
    forall i :: 0 <= i < |s| ==> cmp(s[i], k) < 0
  }

  /** Every key of s sorts strictly after k. */
  ghost predicate AllAbove<K>(cmp: (K, K) -> int, s: seq<K>, k: K) {
    forall i :: 0 <= i < |s| ==> cmp(s[i], k) > 0
  }

  /** No key of s compares equal to q. */
  ghost predicate Absent<K>(cmp: (K, K) -> int, s: seq<K>, q: K) {
    forall i :: 0 <= i < |s| ==> cmp(q, s[i]) != 0
  }

  /** The first key of s that compares equal to q. */
  function Find<K>(cmp: (K, K) -> int, s: seq<K>, q: K): (r: Option<K>)
    ensures r.Some? ==> cmp(q, r.value) == 0
    ensures r.None? <==> Absent(cmp, s, q)
  {
    if s == [] then None
    else if cmp(q, s[0]) == 0 then Some(s[0])
    else Find(cmp, s[1..], q)
  }

  /**
   * Sorted insertion: k goes before the first key it does not sort after,
   * and takes the place of a key that compares equal to it.
   */
  function Insert<K>(cmp: (K, K) -> int, s: seq<K>, k: K): (r: seq<K>)
  {
    if s == [] then [k]
    else if cmp(k, s[0]) < 0 then [k] + s
    else if cmp(k, s[0]) == 0 then [k] + s[1..]
    else [s[0]] + Insert(cmp, s[1..], k)
  }

  /** Removes the first key that compares equal to q, if there is one. */
  function Remove<K>(cmp: (K, K) -> int, s: seq<K>, q: K): (r: seq<K>)
  {
    if s == [] then []
    else if cmp(q, s[0]) == 0 then s[1..]
    else [s[0]] + Remove(cmp, s[1..], q)
  }

  // ---- Splitting a sequence in two ----

  lemma {:induction false} FindConcat<K>(cmp: (K, K) -> int, a: seq<K>, b: seq<K>, q: K)
    ensures Find(cmp, a + b, q) == if Find(cmp, a, q).Some? then Find(cmp, a, q) else Find(cmp, b, q)
  {
    if a == [] {
      assert a + b == b;
    } else {
      assert (a + b)[1..] == a[1..] + b;
      FindConcat(cmp, a[1..], b, q);
    }
  }

  /** Inserting a key that sorts before all of b does not touch b. */
  lemma {:induction false} InsertConcatLeft<K>(cmp: (K, K) -> int, a: seq<K>, b: seq<K>, k: K)
    requires b == [] || cmp(k, b[0]) < 0
    ensures Insert(cmp, a + b, k) == Insert(cmp, a, k) + b
  {
    if a == [] {
      assert a + b == b;
    } else {
      assert (a + b)[1..] == a[1..] + b;
      InsertConcatLeft(cmp, a[1..], b, k);
    }
  }

  /** Inserting a key that sorts after all of a does not touch a. */
  lemma {:induction false} InsertConcatRight<K>(cmp: (K, K) -> int, a: seq<K>, b: seq<K>, k: K)
    requires forall i :: 0 <= i < |a| ==> cmp(k, a[i]) > 0
    ensures Insert(cmp, a + b, k) == a + Insert(cmp, b, k)
  {
    if a == [] {
      assert a + b == b;
    } else {
      assert (a + b)[1..] == a[1..] + b;
      InsertConcatRight(cmp, a[1..], b, k);
    }
  }

  /** Removing a key that is not there changes nothing. */
  lemma {:induction false} RemoveAbsent<K>(cmp: (K, K) -> int, s: seq<K>, q: K)
    requires Absent(cmp, s, q)
    ensures Remove(cmp, s, q) == s
  {
    if s != [] {
      RemoveAbsent(cmp, s[1..], q);
    }
  }

  lemma {:induction false} RemoveConcatLeft<K>(cmp: (K, K) -> int, a: seq<K>, b: seq<K>, q: K)
    requires Absent(cmp, b, q)
    ensures Remove(cmp, a + b, q) == Remove(cmp, a, q) + b
  {
    if a == [] {
      assert a + b == b;
      RemoveAbsent(cmp, b, q);
    } else {
      assert (a + b)[1..] == a[1..] + b;
      RemoveConcatLeft(cmp, a[1..], b, q);
    }
  }

  lemma {:induction false} RemoveConcatRight<K>(cmp: (K, K) -> int, a: seq<K>, b: seq<K>, q: K)
    requires Absent(cmp, a, q)
    ensures Remove(cmp, a + b, q) == a + Remove(cmp, b, q)
  {
    if a == [] {
      assert a + b == b;
    } else {
      assert (a + b)[1..] == a[1..] + b;
      RemoveConcatRight(cmp, a[1..], b, q);
    }
  }

  // ---- Meaning of Insert and Remove on a sorted sequence ----

  lemma SortedTail<K>(cmp: (K, K) -> int, s: seq<K>)
    requires Sorted(cmp, s) && s != []
    ensures Sorted(cmp, s[1..])
  {
    var t := s[1..];
    forall i, j | 0 <= i < j < |t| ensures cmp(t[i], t[j]) < 0 {
      assert t[i] == s[i + 1] && t[j] == s[j + 1];
    }
  }

  /** In a sorted sequence each key finds itself: no earlier key compares equal to it. */
  lemma {:induction false} FindSorted<K(!new)>(cmp: (K, K) -> int, s: seq<K>, i: nat)
    requires IsComparator(cmp) && Sorted(cmp, s) && i < |s|
    ensures Find(cmp, s, s[i]) == Some(s[i])
  {
    if i > 0 {
      assert cmp(s[0], s[i]) < 0;
      SortedTail(cmp, s);
      assert s[1..][i - 1] == s[i];
      FindSorted(cmp, s[1..], i - 1);
    }
  }

  lemma SortedCons<K(!new)>(cmp: (K, K) -> int, x: K, t: seq<K>)
    requires IsComparator(cmp) && Sorted(cmp, t) && AllAbove(cmp, t, x)
    ensures Sorted(cmp, [x] + t)
  {
    var r := [x] + t;
    forall i, j | 0 <= i < j < |r| ensures cmp(r[i], r[j]) < 0 {
      if i == 0 {
        assert cmp(t[j - 1], x) > 0;
      } else {
        assert r[i] == t[i - 1] && r[j] == t[j - 1];
      }
    }
  }

  /** A lower bound of t that k is above is a lower bound of Insert(t, k). */
  lemma {:induction false} InsertAbove<K(!new)>(cmp: (K, K) -> int, t: seq<K>, k: K, lo: K)
    requires AllAbove(cmp, t, lo) && cmp(k, lo) > 0
    ensures AllAbove(cmp, Insert(cmp, t, k), lo)
  {
    if t != [] && cmp(k, t[0]) > 0 {
      InsertAbove(cmp, t[1..], k, lo);
    }
  }

  /** A lower bound of t is a lower bound of Remove(t, q). */
  lemma {:induction false} RemoveAbove<K>(cmp: (K, K) -> int, t: seq<K>, q: K, lo: K)
    requires AllAbove(cmp, t, lo)
    ensures AllAbove(cmp, Remove(cmp, t, q), lo)
  {
    if t != [] && cmp(q, t[0]) != 0 {
      RemoveAbove(cmp, t[1..], q, lo);
    }
  }

  /** The head of a sorted sequence is below the rest of it. */
  lemma SortedHead<K(!new)>(cmp: (K, K) -> int, s: seq<K>)
    requires IsComparator(cmp) && Sorted(cmp, s) && s != []
    ensures Sorted(cmp, s[1..]) && AllAbove(cmp, s[1..], s[0])
  {
    SortedTail(cmp, s);
    forall i | 0 <= i < |s| - 1 ensures cmp(s[1..][i], s[0]) > 0 {
      assert cmp(s[0], s[i + 1]) < 0;
    }
  }

  /** A key below the head of a sorted sequence is below all of it. */
  lemma BelowHead<K(!new)>(cmp: (K, K) -> int, s: seq<K>, k: K)
    requires IsComparator(cmp) && Sorted(cmp, s) && s != [] && cmp(k, s[0]) <= 0
    ensures forall i :: 1 <= i < |s| ==> cmp(k, s[i]) < 0
  {
    forall i | 1 <= i < |s| ensures cmp(k, s[i]) < 0 {
      LessChain(cmp, k, s[0], s[i]);
    }
  }

  /** Insert keeps a sorted sequence sorted. */
  lemma {:induction false} InsertSorted<K(!new)>(cmp: (K, K) -> int, s: seq<K>, k: K)
    requires IsComparator(cmp) && Sorted(cmp, s)
    ensures Sorted(cmp, Insert(cmp, s, k))
  {
    if s != [] {
      SortedHead(cmp, s);
      var t := s[1..];
      if cmp(k, s[0]) < 0 {
        BelowHead(cmp, s, k);
        SortedCons(cmp, k, s);
      } else if cmp(k, s[0]) == 0 {
        BelowHead(cmp, s, k);
        SortedCons(cmp, k, t);
      } else {
        InsertSorted(cmp, t, k);
        InsertAbove(cmp, t, k, s[0]);
        SortedCons(cmp, s[0], Insert(cmp, t, k));
      }
    }
  }

  /** Insert adds one key exactly when none compared equal to k. */
  lemma {:induction false} InsertLength<K(!new)>(cmp: (K, K) -> int, s: seq<K>, k: K)
    requires IsComparator(cmp) && Sorted(cmp, s)
    ensures |Insert(cmp, s, k)| == if Find(cmp, s, k).None? then |s| + 1 else |s|
  {
    if s != [] {
      SortedHead(cmp, s);
      if cmp(k, s[0]) < 0 {
        BelowHead(cmp, s, k);
        assert Absent(cmp, s, k);
      } else if cmp(k, s[0]) > 0 {
        InsertLength(cmp, s[1..], k);
      }
    }
  }

  /** After Insert(s, k), searching for k finds k itself. */
  lemma {:induction false} InsertFindsKey<K(!new)>(cmp: (K, K) -> int, s: seq<K>, k: K)
    requires IsComparator(cmp)
    ensures Find(cmp, Insert(cmp, s, k), k) == Some(k)
  {
    if s != [] && cmp(k, s[0]) > 0 {
      assert cmp(k, s[0]) != 0;
      InsertFindsKey(cmp, s[1..], k);
      assert ([s[0]] + Insert(cmp, s[1..], k))[1..] == Insert(cmp, s[1..], k);
    }
  }

  /** Insert(s, k) leaves the search result of every key not equal to k alone. */
  lemma {:induction false} InsertFindsOthers<K(!new)>(cmp: (K, K) -> int, s: seq<K>, k: K, q: K)
    requires IsComparator(cmp) && Sorted(cmp, s) && cmp(q, k) != 0
    ensures Find(cmp, Insert(cmp, s, k), q) == Find(cmp, s, q)
  {
    if s != [] {
      SortedHead(cmp, s);
      var t := s[1..];
      if cmp(k, s[0]) < 0 {
        assert ([k] + s)[1..] == s;
      } else if cmp(k, s[0]) == 0 {
        assert ([k] + t)[1..] == t;
      } else {
        InsertFindsOthers(cmp, t, k, q);
        assert ([s[0]] + Insert(cmp, t, k))[1..] == Insert(cmp, t, k);
      }
    }
  }

  /** Remove keeps a sorted sequence sorted. */
  lemma {:induction false} RemoveSorted<K(!new)>(cmp: (K, K) -> int, s: seq<K>, q: K)
    requires IsComparator(cmp) && Sorted(cmp, s)
    ensures Sorted(cmp, Remove(cmp, s, q))
  {
    if s != [] {
      SortedHead(cmp, s);
      if cmp(q, s[0]) != 0 {
        RemoveSorted(cmp, s[1..], q);
        RemoveAbove(cmp, s[1..], q, s[0]);
        SortedCons(cmp, s[0], Remove(cmp, s[1..], q));
      }
    }
  }

  /** Remove drops one key exactly when one compared equal to q. */
  lemma {:induction false} RemoveLength<K>(cmp: (K, K) -> int, s: seq<K>, q: K)
    ensures |Remove(cmp, s, q)| == if Find(cmp, s, q).None? then |s| else |s| - 1
  {
    if s != [] && cmp(q, s[0]) != 0 {
      RemoveLength(cmp, s[1..], q);
    }
  }

  /** After Remove(s, q) on a sorted s, searching for q finds nothing. */
  lemma {:induction false} RemoveLosesKey<K(!new)>(cmp: (K, K) -> int, s: seq<K>, q: K)
    requires IsComparator(cmp) && Sorted(cmp, s)
    ensures Find(cmp, Remove(cmp, s, q), q).None?
  {
    if s != [] {
      SortedHead(cmp, s);
      var t := s[1..];
      if cmp(q, s[0]) == 0 {
        forall i | 0 <= i < |t| ensures cmp(q, t[i]) != 0 {
          LessChain(cmp, s[0], q, t[i]);
        }
      } else {
        RemoveLosesKey(cmp, t, q);
        assert ([s[0]] + Remove(cmp, t, q))[1..] == Remove(cmp, t, q);
      }
    }
  }

  /** Remove(s, q) leaves the search result of every key not equal to q alone. */
  lemma {:induction false} RemoveFindsOthers<K(!new)>(cmp: (K, K) -> int, s: seq<K>, q: K, p: K)
    requires IsComparator(cmp) && Sorted(cmp, s) && cmp(p, q) != 0
    ensures Find(cmp, Remove(cmp, s, q), p) == Find(cmp, s, p)
  {
    if s != [] {
      SortedHead(cmp, s);
      var t := s[1..];
      if cmp(q, s[0]) == 0 {
        assert Find(cmp, s, p) == Find(cmp, t, p);
      } else {
        RemoveFindsOthers(cmp, t, q, p);
        assert ([s[0]] + Remove(cmp, t, q))[1..] == Remove(cmp, t, q);
      }
    }
  }

  // ---- Sorted sequences split at a key, as a tree splits at its root ----

  /** a + [k] + b is sorted exactly when a and b are and k separates them. */
  lemma SortedJoin<K(!new)>(cmp: (K, K) -> int, a: seq<K>, k: K, b: seq<K>)
    requires IsComparator(cmp)
    ensures Sorted(cmp, a + [k] + b) <==>
            Sorted(cmp, a) && Sorted(cmp, b) && AllBelow(cmp, a, k) && AllAbove(cmp, b, k)
  {
    if Sorted(cmp, a) && Sorted(cmp, b) && AllBelow(cmp, a, k) && AllAbove(cmp, b, k) {
      SortedJoinIntro(cmp, a, k, b);
    }
    if Sorted(cmp, a + [k] + b) {
      SortedJoinElim(cmp, a, k, b);
    }
  }

  lemma SortedJoinIntro<K(!new)>(cmp: (K, K) -> int, a: seq<K>, k: K, b: seq<K>)
    requires IsComparator(cmp)
    requires Sorted(cmp, a) && Sorted(cmp, b) && AllBelow(cmp, a, k) && AllAbove(cmp, b, k)
    ensures Sorted(cmp, a + [k] + b)
  {
    var s := a + [k] + b;
    forall i, j | 0 <= i < j < |s| ensures cmp(s[i], s[j]) < 0 {
      if i < |a| && j == |a| {
        assert s[i] == a[i];
      } else if i < |a| && j > |a| {
        assert s[i] == a[i] && s[j] == b[j - |a| - 1];
        assert cmp(k, s[j]) < 0;
        LessChain(cmp, s[i], k, s[j]);
      } else if i == |a| {
        assert s[j] == b[j - |a| - 1];
      } else if j < |a| {
        assert s[i] == a[i] && s[j] == a[j];
      } else {
        assert s[i] == b[i - |a| - 1] && s[j] == b[j - |a| - 1];
      }
    }
  }

  lemma SortedJoinElim<K(!new)>(cmp: (K, K) -> int, a: seq<K>, k: K, b: seq<K>)
    requires IsComparator(cmp) && Sorted(cmp, a + [k] + b)
    ensures Sorted(cmp, a) && Sorted(cmp, b) && AllBelow(cmp, a, k) && AllAbove(cmp, b, k)
  {
    var s := a + [k] + b;
    forall i, j | 0 <= i < j < |a| ensures cmp(a[i], a[j]) < 0 {
      assert a[i] == s[i] && a[j] == s[j];
    }
    forall i, j | 0 <= i < j < |b| ensures cmp(b[i], b[j]) < 0 {
      assert b[i] == s[i + |a| + 1] && b[j] == s[j + |a| + 1];
    }
    forall i | 0 <= i < |a| ensures cmp(a[i], k) < 0 {
      assert a[i] == s[i] && k == s[|a|];
    }
    forall i | 0 <= i < |b| ensures cmp(b[i], k) > 0 {
      assert b[i] == s[i + |a| + 1] && k == s[|a|];
    }
  }

  /** Keys below k do not match a key q that is not below k. */
  lemma AbsentBelow<K(!new)>(cmp: (K, K) -> int, a: seq<K>, k: K, q: K)
    requires IsComparator(cmp) && AllBelow(cmp, a, k) && cmp(q, k) >= 0
    ensures Absent(cmp, a, q)
    ensures forall i :: 0 <= i < |a| ==> cmp(q, a[i]) > 0
  {
    forall i | 0 <= i < |a| ensures cmp(q, a[i]) > 0 {
      LessChain(cmp, a[i], k, q);
    }
  }

  /** Keys above k do not match a key q that is not above k. */
  lemma AbsentAbove<K(!new)>(cmp: (K, K) -> int, b: seq<K>, k: K, q: K)
    requires IsComparator(cmp) && AllAbove(cmp, b, k) && cmp(q, k) <= 0
    ensures Absent(cmp, b, q)
  {
    forall i | 0 <= i < |b| ensures cmp(q, b[i]) != 0 {
      LessChain(cmp, q, k, b[i]);
    }
  }

  /** In a sorted sequence only the last key matches the last key. */
  lemma SortedLast<K(!new)>(cmp: (K, K) -> int, a: seq<K>)
    requires IsComparator(cmp) && Sorted(cmp, a) && a != []
    ensures Remove(cmp, a, a[|a| - 1]) == a[..|a| - 1]
  {
    var n := |a| - 1;
    forall i | 0 <= i < n ensures cmp(a[n], a[..n][i]) != 0 {
      assert cmp(a[i], a[n]) < 0;
    }
    RemoveConcatRight(cmp, a[..n], [a[n]], a[n]);
    assert a[..n] + [a[n]] == a;
  }

  // ---- The three cases of a descent that meets key x between a and b ----

  lemma InsertAtSplit<K(!new)>(cmp: (K, K) -> int, a: seq<K>, x: K, b: seq<K>, k: K)
    requires IsComparator(cmp) && AllBelow(cmp, a, x)
    ensures cmp(k, x) == 0 ==> Insert(cmp, a + [x] + b, k) == a + [k] + b
    ensures cmp(k, x) < 0 ==> Insert(cmp, a + [x] + b, k) == Insert(cmp, a, k) + [x] + b
    ensures cmp(k, x) > 0 ==> Insert(cmp, a + [x] + b, k) == a + [x] + Insert(cmp, b, k)
  {
    assert a + [x] + b == a + ([x] + b);
    if cmp(k, x) == 0 {
      AbsentBelow(cmp, a, x, k);
      InsertConcatRight(cmp, a, [x] + b, k);
      assert ([x] + b)[1..] == b;
    } else if cmp(k, x) < 0 {
      InsertConcatLeft(cmp, a, [x] + b, k);
    } else {
      AbsentBelow(cmp, a, x, k);
      InsertConcatRight(cmp, a + [x], b, k);
    }
  }

  lemma RemoveAtSplit<K(!new)>(cmp: (K, K) -> int, a: seq<K>, x: K, b: seq<K>, q: K)
    requires IsComparator(cmp) && AllBelow(cmp, a, x) && AllAbove(cmp, b, x)
    ensures cmp(q, x) == 0 ==> Remove(cmp, a + [x] + b, q) == a + b
    ensures cmp(q, x) < 0 ==> Remove(cmp, a + [x] + b, q) == Remove(cmp, a, q) + [x] + b
    ensures cmp(q, x) > 0 ==> Remove(cmp, a + [x] + b, q) == a + [x] + Remove(cmp, b, q)
  {
    assert a + [x] + b == a + ([x] + b);
    if cmp(q, x) == 0 {
      AbsentBelow(cmp, a, x, q);
      RemoveConcatRight(cmp, a, [x] + b, q);
      assert ([x] + b)[1..] == b;
    } else if cmp(q, x) < 0 {
      AbsentAbove(cmp, b, x, q);
      assert Absent(cmp, [x] + b, q) by {
        forall j | 0 <= j < |[x] + b| ensures cmp(q, ([x] + b)[j]) != 0 {
          if j > 0 {
            assert ([x] + b)[j] == b[j - 1];
          }
        }
      }
      RemoveConcatLeft(cmp, a, [x] + b, q);
    } else {
      AbsentBelow(cmp, a, x, q);
      assert Absent(cmp, a + [x], q) by {
        forall j | 0 <= j < |a + [x]| ensures cmp(q, (a + [x])[j]) != 0 {
          if j < |a| {
            assert (a + [x])[j] == a[j];
          }
        }
      }
      RemoveConcatRight(cmp, a + [x], b, q);
    }
  }
}
