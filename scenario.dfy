/**
 * The scenario of test/test_custom.c, on the model: a set of C strings
 * ordered by strcmp, created with a reserve of 5, into which alice, bob,
 * carl, david and eve are inserted; then carl and alice are deleted and
 * carl is inserted again. Every call answers as the test expects.
 */
module CustomScenario {
  import opened Wrappers
  import opened Comparator
  import KeySeq
  import opened ArenaAvl

  /** A C string: characters up to, and not including, the terminating NUL. */
  type CString = s: string | forall i :: 0 <= i < |s| ==> s[i] != '\0'

  /** The character strcmp reads at the head of s: the NUL terminator once s is exhausted. */
  function Head(s: CString): int {
    if s == [] then 0 else s[0] as int
  }

  /** strcmp: the difference of the first two characters that differ, or 0. */
  function StrCmp(a: CString, b: CString): int
    decreases |a|
  {
    if a == [] || b == [] || a[0] != b[0] then Head(a) - Head(b) else StrCmp(a[1..], b[1..])
  }

  lemma {:induction false} StrCmpSwap(a: CString, b: CString)
    ensures StrCmp(a, b) == -StrCmp(b, a)
    decreases |a|
  {
    if a != [] && b != [] && a[0] == b[0] {
      StrCmpSwap(a[1..], b[1..]);
    }
  }

  lemma {:induction false} StrCmpSelf(a: CString)
    ensures StrCmp(a, a) == 0
    decreases |a|
  {
    if a != [] {
      StrCmpSelf(a[1..]);
    }
  }

  lemma {:induction false} StrCmpTrans(a: CString, b: CString, c: CString)
    requires StrCmp(a, b) <= 0 && StrCmp(b, c) <= 0
    ensures StrCmp(a, c) <= 0
    decreases |a|
  {
    if a != [] && b != [] && c != [] && a[0] == b[0] && b[0] == c[0] {
      StrCmpTrans(a[1..], b[1..], c[1..]);
    }
  }

  /** strcmp orders C strings as a comparator must. */
  lemma StrCmpIsComparator()
    ensures IsComparator(StrCmp)
  {
    forall a: CString ensures StrCmp(a, a) == 0 {
      StrCmpSelf(a);
    }
    forall a: CString, b: CString ensures StrCmp(a, b) < 0 <==> StrCmp(b, a) > 0 {
      StrCmpSwap(a, b);
    }
    forall a: CString, b: CString, c: CString | StrCmp(a, b) <= 0 && StrCmp(b, c) <= 0
      ensures StrCmp(a, c) <= 0
    {
      StrCmpTrans(a, b, c);
    }
  }

  /** The names the test inserts, in order. */
  function Names(): seq<CString> {
    ["alice", "bob", "carl", "david", "eve"]
  }

  /** The set after deleting carl, after deleting alice, and after inserting carl again. */
  function WithoutCarl(): seq<CString> {
    ["alice", "bob", "david", "eve"]
  }

  function WithoutAliceAndCarl(): seq<CString> {
    ["bob", "david", "eve"]
  }

  function Final(): seq<CString> {
    ["bob", "carl", "david", "eve"]
  }

  /** The names start with a, b, c, d, e, so strcmp already sorts them on their first characters. */
  lemma NamesSorted()
    ensures KeySeq.Sorted(StrCmp, Names())
  {
    var n := Names();
    assert forall i :: 0 <= i < 5 ==> n[i] != [] && n[i][0] as int == 97 + i;
  }

  /** A key above every key of a sequence is absent from it, and inserting it appends it. */
  lemma InsertAppends<K(!new)>(cmp: (K, K) -> int, s: seq<K>, k: K)
    requires IsComparator(cmp) && KeySeq.AllBelow(cmp, s, k)
    ensures KeySeq.Find(cmp, s, k).None? && KeySeq.Insert(cmp, s, k) == s + [k]
  {
    KeySeq.AbsentBelow(cmp, s, k, k);
    KeySeq.InsertConcatRight(cmp, s, [], k);
    assert s + [] == s;
  }

  /** Inserting the keys of a sorted sequence in order adds each of them at the end. */
  lemma InsertSortedStep<K(!new)>(cmp: (K, K) -> int, s: seq<K>, i: nat)
    requires IsComparator(cmp) && KeySeq.Sorted(cmp, s) && i < |s|
    ensures KeySeq.Find(cmp, s[..i], s[i]).None?
    ensures KeySeq.Insert(cmp, s[..i], s[i]) == s[..i + 1]
  {
    assert KeySeq.AllBelow(cmp, s[..i], s[i]) by {
      forall j | 0 <= j < i ensures cmp(s[..i][j], s[i]) < 0 {
        assert s[..i][j] == s[j];
      }
    }
    InsertAppends(cmp, s[..i], s[i]);
    assert s[..i] + [s[i]] == s[..i + 1];
  }

  /** Deleting carl from the five names finds it and leaves the other four. */
  lemma CarlDeleted()
    ensures KeySeq.Find(StrCmp, Names(), Names()[2]).Some?
    ensures KeySeq.Remove(StrCmp, Names(), Names()[2]) == WithoutCarl()
  {
  }

  /** Deleting alice from those four finds it and leaves bob, david and eve. */
  lemma AliceDeleted()
    ensures KeySeq.Find(StrCmp, WithoutCarl(), Names()[0]).Some?
    ensures KeySeq.Remove(StrCmp, WithoutCarl(), Names()[0]) == WithoutAliceAndCarl()
  {
  }

  /** carl is then absent, and inserting it again puts it between bob and david. */
  lemma CarlReinserted()
    ensures KeySeq.Find(StrCmp, WithoutAliceAndCarl(), Names()[2]).None?
    ensures KeySeq.Insert(StrCmp, WithoutAliceAndCarl(), Names()[2]) == Final()
  {
  }

  /** With all five names stored, each name finds itself. */
  lemma FoundAll(p: nat)
    requires p < 5
    ensures KeySeq.Find(StrCmp, Names(), Names()[p]) == Some(Names()[p])
  {
    StrCmpIsComparator();
    NamesSorted();
    KeySeq.FindSorted(StrCmp, Names(), p);
  }

  /** After carl is back, every name but alice is found. */
  lemma FoundAtEnd(p: nat)
    requires p < 5
    ensures KeySeq.Find(StrCmp, Final(), Names()[p]).Some? == (p != 0)
  {
  }

  lemma FoundAfterCarl(p: nat)
    requires p < 5
    ensures KeySeq.Find(StrCmp, WithoutCarl(), Names()[p]).Some? == (p != 2)
  {
  }

  lemma FoundAfterAlice(p: nat)
    requires p < 5
    ensures KeySeq.Find(StrCmp, WithoutAliceAndCarl(), Names()[p]).Some? == (p != 0 && p != 2)
  {
  }

  /** The insertion loop of the test: each name is new and goes in with return value 0. */
  method InsertNames(s: AvlSet<CString>) returns (codes: seq<int>)
    requires s.Valid() && s.Contents() == [] && s.compare == StrCmp
    modifies s, s.tree, s.slots, s.slots.items
    ensures s.Valid() && s.Contents() == Names() && |codes| == 5
    ensures forall p :: 0 <= p < 5 ==> codes[p] == 0
    ensures s.tree == old(s.tree) || fresh(s.tree)
    ensures s.slots == old(s.slots) || (fresh(s.slots) && fresh(s.slots.items))
  {
    codes := [];
    var i := 0;
    while i < 5
      invariant 0 <= i <= 5 && Holding(s, i) && codes == Zeros(i)
      invariant s.tree == old(s.tree) || fresh(s.tree)
      invariant s.slots == old(s.slots) || (fresh(s.slots) && fresh(s.slots.items))
    {
      var r := InsertName(s, i);
      codes := codes + [r];
      i := i + 1;
    }
    assert Names()[..5] == Names();
  }

  /** i return values of 0. */
  function Zeros(i: nat): (z: seq<int>)
    ensures |z| == i && forall p :: 0 <= p < i ==> z[p] == 0
  {
    if i == 0 then [] else Zeros(i - 1) + [0]
  }

  /** The set is consistent and holds the first i names. */
  ghost predicate Holding(s: AvlSet<CString>, i: nat)
    requires i <= 5
    reads s, s.slots, s.slots.items, s.tree
  {
    s.Valid() && s.compare == StrCmp && s.Contents() == Names()[..i]
  }

  /** One pass of the insertion loop: the i-th name is new and goes in at the end. */
  method InsertName(s: AvlSet<CString>, i: nat) returns (r: int)
    requires i < 5 && Holding(s, i)
    modifies s, s.tree, s.slots, s.slots.items
    ensures r == 0 && Holding(s, i + 1)
    ensures s.tree == old(s.tree) || fresh(s.tree)
    ensures s.slots == old(s.slots) || (fresh(s.slots) && fresh(s.slots.items))
  {
    StrCmpIsComparator();
    NamesSorted();
    InsertSortedStep(StrCmp, Names(), i);
    r := s.Insert(Names()[i]);
  }

  /**
   * The calls of test/test_custom.c in order: five insertions that each
   * add a key, after which every name is found as itself; deleting carl,
   * after which every name but carl is found; deleting alice, after which
   * bob, david and eve are found; and inserting carl again, after which
   * every name but alice is found. codes holds the return values of the
   * last three calls.
   */
  method Run() returns (inserts: seq<int>, firstSearch: seq<Option<CString>>, codes: seq<int>,
                        afterCarl: seq<bool>, afterAlice: seq<bool>, afterReinsert: seq<bool>)
    ensures inserts == [0, 0, 0, 0, 0] && codes == [0, 0, 0]
    ensures |firstSearch| == 5 && forall p :: 0 <= p < 5 ==> firstSearch[p] == Some(Names()[p])
    ensures afterCarl == [true, true, false, true, true]
    ensures afterAlice == [false, true, false, true, true]
    ensures afterReinsert == [false, true, true, true, true]
  {
    StrCmpIsComparator();
    var cmp: (CString, CString) -> int := StrCmp;
    var created := Create<CString>(Some(cmp), Some(5));
    var s: AvlSet<CString> := created.value;
    inserts := InsertNames(s);
    assert inserts == [0, 0, 0, 0, 0];
    firstSearch := SearchNames(s);
    codes, afterCarl, afterAlice, afterReinsert := DeleteAndReinsert(s);
  }

  /**
   * The first search loop of the test, on the set holding the five names:
   * every search returns a key, and that key is strcmp-equal to the name,
   * indeed the name itself.
   */
  method SearchNames(s: AvlSet<CString>) returns (got: seq<Option<CString>>)
    requires s.Valid() && s.Contents() == Names() && s.compare == StrCmp
    ensures |got| == 5
    ensures forall p :: 0 <= p < 5 ==> got[p] == Some(Names()[p]) && StrCmp(got[p].value, Names()[p]) == 0
  {
    got := Lookup(s, Names());
    forall p | 0 <= p < 5 ensures got[p] == Some(Names()[p]) && StrCmp(got[p].value, Names()[p]) == 0 {
      FoundAll(p);
      StrCmpSelf(Names()[p]);
    }
  }

  /** The second half of the test, on the set holding the five names. */
  method DeleteAndReinsert(s: AvlSet<CString>)
    returns (codes: seq<int>, afterCarl: seq<bool>, afterAlice: seq<bool>, afterReinsert: seq<bool>)
    requires s.Valid() && s.Contents() == Names() && s.compare == StrCmp
    modifies s, s.tree, s.slots, s.slots.items
    ensures codes == [0, 0, 0] && s.Valid() && s.Contents() == Final()
    ensures afterCarl == [true, true, false, true, true]
    ensures afterAlice == [false, true, false, true, true]
    ensures afterReinsert == [false, true, true, true, true]
  {
    var d1, d2, r6;
    d1, afterCarl := DeleteCarl(s);
    d2, afterAlice := DeleteAlice(s);
    r6 := ReinsertCarl(s);
    afterReinsert := SearchFinal(s);
    codes := [d1, d2, r6];
  }

  /** Deleting carl succeeds; afterwards every name but carl is found. */
  method DeleteCarl(s: AvlSet<CString>) returns (d: int, found: seq<bool>)
    requires s.Valid() && s.Contents() == Names() && s.compare == StrCmp
    modifies s, s.tree, s.slots, s.slots.items
    ensures d == 0 && s.Valid() && s.Contents() == WithoutCarl() && s.compare == StrCmp
    ensures s.tree == old(s.tree) && s.slots == old(s.slots)
    ensures found == [true, true, false, true, true]
  {
    CarlDeleted();
    d := s.Delete(Names()[2]);
    found := SearchWithoutCarl(s);
  }

  /** The searches after deleting carl. */
  method SearchWithoutCarl(s: AvlSet<CString>) returns (found: seq<bool>)
    requires s.Valid() && s.Contents() == WithoutCarl() && s.compare == StrCmp
    ensures found == [true, true, false, true, true]
  {
    found := Found(s, Names());
    forall p | 0 <= p < 5 ensures found[p] == (p != 2) {
      FoundAfterCarl(p);
    }
  }

  /** Deleting alice succeeds; afterwards bob, david and eve are found. */
  method DeleteAlice(s: AvlSet<CString>) returns (d: int, found: seq<bool>)
    requires s.Valid() && s.Contents() == WithoutCarl() && s.compare == StrCmp
    modifies s, s.tree, s.slots, s.slots.items
    ensures d == 0 && s.Valid() && s.Contents() == WithoutAliceAndCarl() && s.compare == StrCmp
    ensures s.tree == old(s.tree) && s.slots == old(s.slots)
    ensures found == [false, true, false, true, true]
  {
    AliceDeleted();
    d := s.Delete(Names()[0]);
    found := SearchWithoutAliceAndCarl(s);
  }

  /** The searches after deleting alice. */
  method SearchWithoutAliceAndCarl(s: AvlSet<CString>) returns (found: seq<bool>)
    requires s.Valid() && s.Contents() == WithoutAliceAndCarl() && s.compare == StrCmp
    ensures found == [false, true, false, true, true]
  {
    found := Found(s, Names());
    forall p | 0 <= p < 5 ensures found[p] == (p != 0 && p != 2) {
      FoundAfterAlice(p);
    }
  }

  /** Inserting carl again adds it back. */
  method ReinsertCarl(s: AvlSet<CString>) returns (r: int)
    requires s.Valid() && s.Contents() == WithoutAliceAndCarl() && s.compare == StrCmp
    modifies s, s.tree, s.slots, s.slots.items
    ensures r == 0 && s.Valid() && s.Contents() == Final()
  {
    CarlReinserted();
    r := s.Insert(Names()[2]);
  }

  /** The searches after inserting carl again. */
  method SearchFinal(s: AvlSet<CString>) returns (found: seq<bool>)
    requires s.Valid() && s.Contents() == Final() && s.compare == StrCmp
    ensures found == [false, true, true, true, true]
  {
    found := Found(s, Names());
    forall p | 0 <= p < 5 ensures found[p] == (p != 0) {
      FoundAtEnd(p);
    }
  }

  /** A search loop of the test, reduced to whether each name is found. */
  method Found(s: AvlSet<CString>, names: seq<CString>) returns (found: seq<bool>)
    requires s.Valid()
    ensures |found| == |names|
    ensures forall p :: 0 <= p < |names| ==> found[p] == KeySeq.Find(s.compare, s.Contents(), names[p]).Some?
  {
    var got := Lookup(s, names);
    found := seq(|names|, p requires 0 <= p < |names| => got[p].Some?);
  }

  /** The search loop of the test: what avl_set_search returns for each name. */
  method Lookup(s: AvlSet<CString>, names: seq<CString>) returns (got: seq<Option<CString>>)
    requires s.Valid()
    ensures |got| == |names|
    ensures forall p :: 0 <= p < |names| ==> got[p] == KeySeq.Find(s.compare, s.Contents(), names[p])
  {
    got := [];
    var i := 0;
    while i < |names|
      invariant 0 <= i <= |names| && |got| == i
      invariant forall p :: 0 <= p < i ==> got[p] == KeySeq.Find(s.compare, s.Contents(), names[p])
    {
      var r := s.Search(names[i]);
      got := got + [r];
      i := i + 1;
    }
  }
}
