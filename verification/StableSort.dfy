/** What the merge sort of include/u_list.h computes, on sequences of list nodes, and why that
    is the one stable sorted arrangement. */
module StableSort {

  class Node<T> {
    const data: T
    var next: Node?<T>

    constructor (data: T)
      ensures this.data == data && next == null
    {
      this.data := data;
      next := null;
    }
  }

  type Compare<!T> = (T, T) -> int

  ghost predicate TotalPreorder<T(!new)>(comp: Compare<T>) {
    && (forall a, b :: comp(a, b) <= 0 || comp(b, a) <= 0)
    && (forall a, b, c :: comp(a, b) <= 0 && comp(b, c) <= 0 ==> comp(a, c) <= 0)
  }

  predicate Before<T>(comp: Compare<T>, a: Node<T>, b: Node<T>) {
    comp(a.data, b.data) <= 0
  }

  ghost predicate Sorted<T>(ns: seq<Node<T>>, comp: Compare<T>) {
    forall i, j :: 0 <= i < j < |ns| ==> Before(comp, ns[i], ns[j])
  }

  ghost predicate Distinct<T>(ns: seq<Node<T>>) {
    forall i, j :: 0 <= i < j < |ns| ==> ns[i] != ns[j]
  }

  function Merge<T>(ls: seq<Node<T>>, rs: seq<Node<T>>, comp: Compare<T>): (r: seq<Node<T>>)
    ensures |r| == |ls| + |rs|
    decreases |ls| + |rs|
  {
    if ls == [] then rs
    else if rs == [] then ls
    else if Before(comp, ls[0], rs[0]) then [ls[0]] + Merge(ls[1..], rs, comp)
    else [rs[0]] + Merge(ls, rs[1..], comp)
  }

  /** The front half that the slow and fast pointers cut off. */
  function Half(n: nat): (r: nat)
    ensures n - r <= r <= n - r + 1
    ensures n >= 2 ==> 0 < r < n
  {
    (n + 1) / 2
  }

  function Sort<T>(ns: seq<Node<T>>, comp: Compare<T>): (r: seq<Node<T>>)
    ensures |r| == |ns|
    decreases |ns|
  {
    if |ns| < 2 then ns
    else Merge(Sort(ns[..Half(|ns|)], comp), Sort(ns[Half(|ns|)..], comp), comp)
  }

  // ---------------------------------------------------------------- same nodes

  lemma CountFirst<T>(s: seq<T>)
    requires s != []
    ensures multiset(s) == multiset{s[0]} + multiset(s[1..])
  {
    assert s == [s[0]] + s[1..];
  }

  lemma CountCons<T>(x: T, s: seq<T>)
    ensures multiset([x] + s) == multiset{x} + multiset(s)
  {
  }

  lemma {:induction false} MergeContents<T>(ls: seq<Node<T>>, rs: seq<Node<T>>, comp: Compare<T>)
    ensures multiset(Merge(ls, rs, comp)) == multiset(ls) + multiset(rs)
    decreases |ls| + |rs|
  {
    if ls != [] && rs != [] {
      hide Before;
      if Before(comp, ls[0], rs[0]) {
        MergeContents(ls[1..], rs, comp);
        CountFirst(ls);
        CountCons(ls[0], Merge(ls[1..], rs, comp));
      } else {
        MergeContents(ls, rs[1..], comp);
        CountFirst(rs);
        CountCons(rs[0], Merge(ls, rs[1..], comp));
      }
    }
  }

  /** Sorting rearranges the nodes and nothing else. */
  lemma {:induction false} SortContents<T>(ns: seq<Node<T>>, comp: Compare<T>)
    ensures multiset(Sort(ns, comp)) == multiset(ns)
    decreases |ns|
  {
    if |ns| >= 2 {
      var h := Half(|ns|);
      SortContents(ns[..h], comp);
      SortContents(ns[h..], comp);
      HalvesContents(ns, h, Sort(ns[..h], comp), Sort(ns[h..], comp), comp);
    }
  }

  lemma HalvesContents<T>(ns: seq<Node<T>>, h: nat, ls: seq<Node<T>>, rs: seq<Node<T>>, comp: Compare<T>)
    requires h <= |ns| && multiset(ls) == multiset(ns[..h]) && multiset(rs) == multiset(ns[h..])
    ensures multiset(Merge(ls, rs, comp)) == multiset(ns)
  {
    hide Merge;
    MergeContents(ls, rs, comp);
    assert ns == ns[..h] + ns[h..];
  }

  /** A node that a list holds once is at one place only, and the other way round. */
  lemma DistinctByCount<T>(ns: seq<Node<T>>)
    ensures Distinct(ns) <==> forall i :: 0 <= i < |ns| ==> multiset(ns)[ns[i]] == 1
  {
    if Distinct(ns) {
      forall i | 0 <= i < |ns| ensures multiset(ns)[ns[i]] == 1 {
        CountSplit(ns, i);
        assert ns[i] !in ns[..i] && ns[i] !in ns[i + 1..];
      }
    } else {
      var i, j :| 0 <= i < j < |ns| && ns[i] == ns[j];
      CountSplit(ns, i);
      assert ns[i + 1..][j - i - 1] == ns[i];
    }
  }

  lemma CountSplit<T>(ns: seq<Node<T>>, i: nat)
    requires i < |ns|
    ensures multiset(ns)[ns[i]] == multiset(ns[..i])[ns[i]] + 1 + multiset(ns[i + 1..])[ns[i]]
  {
    assert ns == ns[..i] + [ns[i]] + ns[i + 1..];
  }

  /** The sorted chain holds every node once, as a chain has to. */
  lemma SortDistinct<T>(ns: seq<Node<T>>, comp: Compare<T>)
    requires Distinct(ns)
    ensures Distinct(Sort(ns, comp))
  {
    hide Distinct, Sort;
    var s := Sort(ns, comp);
    SortContents(ns, comp);
    DistinctByCount(ns);
    DistinctByCount(s);
    forall i | 0 <= i < |s| ensures multiset(s)[s[i]] == 1 {
      var j := SameMember(s, ns, i);
    }
  }

  lemma SameMember<T>(a: seq<T>, b: seq<T>, i: nat) returns (j: nat)
    requires multiset(a) == multiset(b) && i < |a|
    ensures j < |b| && b[j] == a[i]
  {
    assert a[i] in multiset(b);
    j :| 0 <= j < |b| && b[j] == a[i];
  }

  // ---------------------------------------------------------------- order

  lemma {:induction false} MergeSorted<T(!new)>(ls: seq<Node<T>>, rs: seq<Node<T>>, comp: Compare<T>)
    requires TotalPreorder(comp)
    requires Sorted(ls, comp) && Sorted(rs, comp)
    ensures Sorted(Merge(ls, rs, comp), comp)
    decreases |ls| + |rs|
  {
    if ls != [] && rs != [] {
      if Before(comp, ls[0], rs[0]) {
        MergeSorted(ls[1..], rs, comp);
        LeastFirst(ls[0], ls[1..], rs, comp);
      } else {
        MergeSorted(ls, rs[1..], comp);
        LeastFirst(rs[0], ls, rs[1..], comp);
      }
    }
  }

  lemma PrependSorted<T>(x: Node<T>, ns: seq<Node<T>>, comp: Compare<T>)
    requires Sorted(ns, comp)
    requires forall n :: n in ns ==> Before(comp, x, n)
    ensures Sorted([x] + ns, comp)
  {
    forall i, j | 0 <= i < j < |ns| + 1 ensures Before(comp, ([x] + ns)[i], ([x] + ns)[j]) {
      assert ([x] + ns)[j] == ns[j - 1];
    }
  }

  lemma BeforeAll<T(!new)>(x: Node<T>, ns: seq<Node<T>>, comp: Compare<T>)
    requires TotalPreorder(comp) && Sorted(ns, comp)
    requires ns != [] ==> Before(comp, x, ns[0])
    ensures forall n :: n in ns ==> Before(comp, x, n)
  {
  }

  /** A node before all of ls and rs stays first in front of their merge. */
  lemma LeastFirst<T(!new)>(x: Node<T>, ls: seq<Node<T>>, rs: seq<Node<T>>, comp: Compare<T>)
    requires TotalPreorder(comp)
    requires Sorted(ls, comp) && Sorted(rs, comp) && Sorted(Merge(ls, rs, comp), comp)
    requires ls != [] ==> Before(comp, x, ls[0])
    requires rs != [] ==> Before(comp, x, rs[0])
    ensures Sorted([x] + Merge(ls, rs, comp), comp)
  {
    BeforeAll(x, ls, comp);
    BeforeAll(x, rs, comp);
    MergeContents(ls, rs, comp);
    forall n | n in Merge(ls, rs, comp) ensures Before(comp, x, n) {
      assert n in multiset(Merge(ls, rs, comp));
    }
    PrependSorted(x, Merge(ls, rs, comp), comp);
  }

  lemma {:induction false} SortSorted<T(!new)>(ns: seq<Node<T>>, comp: Compare<T>)
    requires TotalPreorder(comp)
    ensures Sorted(Sort(ns, comp), comp)
    decreases |ns|
  {
    if |ns| >= 2 {
      var h := Half(|ns|);
      SortSorted(ns[..h], comp);
      SortSorted(ns[h..], comp);
      MergeSorted(Sort(ns[..h], comp), Sort(ns[h..], comp), comp);
    }
  }

  // ---------------------------------------------------------------- stability

  predicate Equal<T>(comp: Compare<T>, a: Node<T>, b: Node<T>) {
    Before(comp, a, b) && Before(comp, b, a)
  }

  /** The nodes that compare equal to x, in their order. */
  function Class<T>(ns: seq<Node<T>>, x: Node<T>, comp: Compare<T>): (r: seq<Node<T>>) {
    if ns == [] then []
    else if Equal(comp, ns[0], x) then [ns[0]] + Class(ns[1..], x, comp)
    else Class(ns[1..], x, comp)
  }

  lemma {:induction false} ClassMember<T>(ns: seq<Node<T>>, x: Node<T>, comp: Compare<T>, n: Node<T>)
    ensures n in Class(ns, x, comp) <==> n in ns && Equal(comp, n, x)
  {
    if ns != [] {
      ClassMember(ns[1..], x, comp, n);
    }
  }

  lemma {:induction false} ClassConcat<T>(a: seq<Node<T>>, b: seq<Node<T>>, x: Node<T>, comp: Compare<T>)
    ensures Class(a + b, x, comp) == Class(a, x, comp) + Class(b, x, comp)
  {
    if a == [] {
      assert a + b == b;
    } else {
      ClassConcat(a[1..], b, x, comp);
      assert (a + b)[1..] == a[1..] + b;
    }
  }

  lemma {:induction false} ClassEmpty<T>(ns: seq<Node<T>>, x: Node<T>, comp: Compare<T>)
    requires forall n :: n in ns ==> !Equal(comp, n, x)
    ensures Class(ns, x, comp) == []
  {
    if ns != [] {
      ClassEmpty(ns[1..], x, comp);
    }
  }

  lemma {:induction false} MergeStable<T(!new)>(ls: seq<Node<T>>, rs: seq<Node<T>>, x: Node<T>, comp: Compare<T>)
    requires TotalPreorder(comp)
    requires Sorted(ls, comp) && Sorted(rs, comp)
    ensures Class(Merge(ls, rs, comp), x, comp) == Class(ls, x, comp) + Class(rs, x, comp)
    decreases |ls| + |rs|
  {
    if ls != [] && rs != [] {
      var m := Merge(ls, rs, comp);
      if Before(comp, ls[0], rs[0]) {
        MergeStable(ls[1..], rs, x, comp);
        assert m[1..] == Merge(ls[1..], rs, comp);
      } else {
        MergeStable(ls, rs[1..], x, comp);
        assert m[1..] == Merge(ls, rs[1..], comp);
        if Equal(comp, rs[0], x) {
          ClassEmpty(ls, x, comp);
        }
      }
    }
  }

  /** Nodes that compare equal keep their order. */
  lemma {:induction false} SortStable<T(!new)>(ns: seq<Node<T>>, x: Node<T>, comp: Compare<T>)
    requires TotalPreorder(comp)
    ensures Class(Sort(ns, comp), x, comp) == Class(ns, x, comp)
    decreases |ns|
  {
    if |ns| >= 2 {
      var h := Half(|ns|);
      SortStable(ns[..h], x, comp);
      SortStable(ns[h..], x, comp);
      SortSorted(ns[..h], comp);
      SortSorted(ns[h..], comp);
      HalvesStable(ns, h, Sort(ns[..h], comp), Sort(ns[h..], comp), x, comp);
    }
  }

  lemma HalvesStable<T(!new)>(
    ns: seq<Node<T>>, h: nat, ls: seq<Node<T>>, rs: seq<Node<T>>, x: Node<T>, comp: Compare<T>)
    requires TotalPreorder(comp) && h <= |ns| && Sorted(ls, comp) && Sorted(rs, comp)
    requires Class(ls, x, comp) == Class(ns[..h], x, comp) && Class(rs, x, comp) == Class(ns[h..], x, comp)
    ensures Class(Merge(ls, rs, comp), x, comp) == Class(ns, x, comp)
  {
    MergeStable(ls, rs, x, comp);
    ClassConcat(ns[..h], ns[h..], x, comp);
    assert ns == ns[..h] + ns[h..];
  }

  lemma FirstIsLeast<T(!new)>(a: seq<Node<T>>, b: seq<Node<T>>, comp: Compare<T>)
    requires TotalPreorder(comp) && a != [] && b != [] && Sorted(a, comp)
    requires Class(a, b[0], comp) == Class(b, b[0], comp)
    ensures Before(comp, a[0], b[0])
  {
    ClassMember(b, b[0], comp, b[0]);
    ClassMember(a, b[0], comp, b[0]);
  }

  lemma ClassTail<T>(a: seq<Node<T>>, b: seq<Node<T>>, x: Node<T>, comp: Compare<T>)
    requires a != [] && b != [] && a[0] == b[0] && Class(a, x, comp) == Class(b, x, comp)
    ensures Class(a[1..], x, comp) == Class(b[1..], x, comp)
  {
    var h := if Equal(comp, a[0], x) then 1 else 0;
    assert Class(a, x, comp)[h..] == Class(a[1..], x, comp);
    assert Class(b, x, comp)[h..] == Class(b[1..], x, comp);
  }

  /** Two sorted sequences with the same classes are the same sequence. */
  lemma {:induction false} SortedClassesDetermine<T(!new)>(a: seq<Node<T>>, b: seq<Node<T>>, comp: Compare<T>)
    requires TotalPreorder(comp)
    requires Sorted(a, comp) && Sorted(b, comp)
    requires forall x :: x in a || x in b ==> Class(a, x, comp) == Class(b, x, comp)
    ensures a == b
  {
    if a == [] {
      if b != [] {
        ClassMember(b, b[0], comp, b[0]);
      }
    } else if b == [] {
      ClassMember(a, a[0], comp, a[0]);
    } else {
      assert a[0] in a && b[0] in b;
      FirstIsLeast(a, b, comp);
      FirstIsLeast(b, a, comp);
      assert Class(a, a[0], comp)[0] == a[0] && Class(b, a[0], comp)[0] == b[0];
      forall x | x in a[1..] || x in b[1..] ensures Class(a[1..], x, comp) == Class(b[1..], x, comp) {
        ClassTail(a, b, x, comp);
      }
      SortedClassesDetermine(a[1..], b[1..], comp);
      assert a == [a[0]] + a[1..] && b == [b[0]] + b[1..];
    }
  }

  /** The sort is the only sorted arrangement that keeps every class in its order. */
  lemma SortIsTheStableOrder<T(!new)>(ns: seq<Node<T>>, other: seq<Node<T>>, comp: Compare<T>)
    requires TotalPreorder(comp)
    requires Sorted(other, comp)
    requires forall x :: x in ns || x in other ==> Class(other, x, comp) == Class(ns, x, comp)
    ensures other == Sort(ns, comp)
  {
    var s := Sort(ns, comp);
    SortSorted(ns, comp);
    SortContents(ns, comp);
    forall x | x in other || x in s ensures Class(other, x, comp) == Class(s, x, comp) {
      assert x in multiset(s) <==> x in multiset(ns);
      SortStable(ns, x, comp);
    }
    SortedClassesDetermine(other, s, comp);
  }

  // ---------------------------------------------------------------- the last node, and sorted insertion

  lemma ClassLast<T>(ns: seq<Node<T>>, x: Node<T>, comp: Compare<T>)
    requires ns != [] && Equal(comp, ns[|ns| - 1], x)
    ensures Class(ns, x, comp) != [] && Class(ns, x, comp)[|Class(ns, x, comp)| - 1] == ns[|ns| - 1]
  {
    ClassConcat(ns[..|ns| - 1], ns[|ns| - 1..], x, comp);
    assert ns == ns[..|ns| - 1] + ns[|ns| - 1..];
  }

  /** Of the nodes that compare equal to the last one, none comes after it in the sorted list. */
  lemma NoEqualBehind<T>(ns: seq<Node<T>>, s: seq<Node<T>>, pos: nat, j: nat, comp: Compare<T>)
    requires ns != [] && Distinct(s) && Equal(comp, ns[|ns| - 1], ns[|ns| - 1])
    requires Class(s, ns[|ns| - 1], comp) == Class(ns, ns[|ns| - 1], comp)
    requires pos < j < |s| && s[pos] == ns[|ns| - 1]
    ensures !Equal(comp, s[j], ns[|ns| - 1])
  {
    hide Class, Equal;
    var last := s[pos];
    var behind := s[pos + 1..];
    ClassConcat(s[..pos + 1], behind, last, comp);
    assert s == s[..pos + 1] + behind;
    ClassLast(ns, last, comp);
    ClassMember(behind, last, comp, s[j]);
    ClassMember(behind, last, comp, last);
    assert behind[j - pos - 1] == s[j];
    NotBehind(s, pos, pos);
  }

  lemma NotBehind<T>(s: seq<Node<T>>, pos: nat, j: nat)
    requires Distinct(s) && j <= pos < |s|
    ensures s[j] !in s[pos + 1..]
  {
  }

  /** In the sorted list exactly the nodes that come after the old last node in the order stand
      behind it. */
  lemma BehindLast<T(!new)>(ns: seq<Node<T>>, pos: nat, n: Node<T>, comp: Compare<T>)
    requires TotalPreorder(comp) && Distinct(ns) && n in ns
    requires pos < |ns| && Sort(ns, comp)[pos] == ns[|ns| - 1]
    ensures n in Sort(ns, comp)[pos + 1..] <==> !Before(comp, n, ns[|ns| - 1])
  {
    hide Sort, Class;
    var s, last := Sort(ns, comp), ns[|ns| - 1];
    SortSorted(ns, comp);
    SortContents(ns, comp);
    SortDistinct(ns, comp);
    SortStable(ns, last, comp);
    var i :| 0 <= i < |ns| && ns[i] == n;
    var j := SameMember(ns, s, i);
    if j > pos {
      assert s[pos + 1..][j - pos - 1] == n;
      NoEqualBehind(ns, s, pos, j, comp);
    } else {
      NotBehind(s, pos, j);
    }
  }

  /** The last node is still last after sorting exactly when no node comes after it in the order. */
  lemma LastAfterSort<T(!new)>(ns: seq<Node<T>>, comp: Compare<T>)
    requires TotalPreorder(comp) && Distinct(ns) && ns != []
    ensures Sort(ns, comp)[|ns| - 1] == ns[|ns| - 1]
       <==> forall n :: n in ns ==> Before(comp, n, ns[|ns| - 1])
  {
    hide Sort, Before;
    var s, last := Sort(ns, comp), ns[|ns| - 1];
    SortContents(ns, comp);
    SortDistinct(ns, comp);
    var pos := SameMember(ns, s, |ns| - 1);
    forall n | n in ns ensures n in s[pos + 1..] <==> !Before(comp, n, last) {
      BehindLast(ns, pos, n, comp);
    }
    if pos < |s| - 1 {
      var i := SameMember(s, ns, pos + 1);
      assert s[pos + 1..][0] == ns[i] && ns[i] in s[pos + 1..];
      assert !Before(comp, ns[i], last);
      NotBehind(s, pos, pos);
      assert s[pos + 1..][|s| - pos - 2] == s[|s| - 1];
      assert s[|s| - 1] != last;
    }
  }

  /** Where u_list_insert_sorted puts x: before the first node that x does not come after. */
  function Place<T>(ns: seq<Node<T>>, x: T, comp: Compare<T>): (r: nat)
    ensures r <= |ns|
    ensures forall i :: 0 <= i < r ==> comp(x, ns[i].data) > 0
    ensures r < |ns| ==> comp(x, ns[r].data) <= 0
  {
    if ns == [] || comp(x, ns[0].data) <= 0 then 0 else 1 + Place(ns[1..], x, comp)
  }

  lemma PlaceSplits<T(!new)>(ns: seq<Node<T>>, x: Node<T>, comp: Compare<T>)
    requires TotalPreorder(comp) && Sorted(ns, comp)
    ensures var p := Place(ns, x.data, comp);
      && (forall i :: 0 <= i < p ==> Before(comp, ns[i], x) && !Before(comp, x, ns[i]))
      && (forall i :: p <= i < |ns| ==> Before(comp, x, ns[i]))
  {
    var p := Place(ns, x.data, comp);
    forall i | p <= i < |ns| ensures Before(comp, x, ns[i]) {
      assert Before(comp, x, ns[p]);
    }
  }

  lemma PlaceSorted<T>(ns: seq<Node<T>>, x: Node<T>, p: nat, r: seq<Node<T>>, comp: Compare<T>)
    requires Sorted(ns, comp) && p <= |ns| && r == ns[..p] + [x] + ns[p..]
    requires forall i :: 0 <= i < p ==> Before(comp, ns[i], x)
    requires forall i :: p <= i < |ns| ==> Before(comp, x, ns[i])
    ensures Sorted(r, comp)
  {
    forall i, j | 0 <= i < j < |r| ensures Before(comp, r[i], r[j]) {
      assert i < p ==> r[i] == ns[i];
      assert i > p ==> r[i] == ns[i - 1];
      assert j < p ==> r[j] == ns[j];
      assert j > p ==> r[j] == ns[j - 1];
    }
  }

  lemma PlaceClasses<T(!new)>(ns: seq<Node<T>>, x: Node<T>, y: Node<T>, p: nat, comp: Compare<T>)
    requires p <= |ns| && forall i :: 0 <= i < p ==> !Before(comp, x, ns[i])
    requires TotalPreorder(comp)
    ensures Class(ns[..p] + [x] + ns[p..], y, comp) == Class([x] + ns, y, comp)
  {
    ClassConcat(ns[..p] + [x], ns[p..], y, comp);
    ClassConcat(ns[..p], [x], y, comp);
    ClassConcat([x], ns, y, comp);
    ClassConcat(ns[..p], ns[p..], y, comp);
    assert ns == ns[..p] + ns[p..];
    if Equal(comp, x, y) {
      ClassEmpty(ns[..p], y, comp);
    } else {
      ClassEmpty([x], y, comp);
    }
  }

  /** Inserting into a sorted list is sorting the list with the new node put in front. */
  lemma InsertIsSort<T(!new)>(ns: seq<Node<T>>, x: Node<T>, comp: Compare<T>)
    requires TotalPreorder(comp) && Sorted(ns, comp)
    ensures var p := Place(ns, x.data, comp);
      ns[..p] + [x] + ns[p..] == Sort([x] + ns, comp)
  {
    var p := Place(ns, x.data, comp);
    PlaceSplits(ns, x, comp);
    PlaceSorted(ns, x, p, ns[..p] + [x] + ns[p..], comp);
    forall y | y in [x] + ns || y in ns[..p] + [x] + ns[p..]
      ensures Class(ns[..p] + [x] + ns[p..], y, comp) == Class([x] + ns, y, comp)
    {
      PlaceClasses(ns, x, y, p, comp);
    }
    SortIsTheStableOrder([x] + ns, ns[..p] + [x] + ns[p..], comp);
  }
}
