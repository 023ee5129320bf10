/** The linked list of include/u_list.h on the heap: split, merge and sort relink the nodes in
    place and leave the chain that StableSort describes; push_back and insert_sorted keep
    first, last and size in step with the chain. */
module UList {
  import opened StableSort

  const EXIT_SUCCESS := 0
  const DEREFERENCING_NULL_PTR := 2

  function At<T>(ns: seq<Node<T>>, i: nat): (r: Node?<T>) {
    if i < |ns| then ns[i] else null
  }

  /** The chain from head consists of the nodes ns, each once, and ends. */
  ghost predicate Chain<T>(head: Node?<T>, ns: seq<Node<T>>)
    reads ns
  {
    && head == At(ns, 0)
    && Distinct(ns)
    && forall i :: 0 <= i < |ns| ==> ns[i].next == At(ns, i + 1)
  }

  /** Ends the chain after its first k nodes; the others stay a chain. */
  method Cut<T>(head: Node<T>, slow: Node<T>, ghost k: nat, ghost ns: seq<Node<T>>) returns (mid: Node?<T>)
    requires Chain(head, ns) && 0 < k < |ns| && slow == ns[k - 1]
    modifies slow
    ensures Chain(head, ns[..k]) && Chain(mid, ns[k..])
  {
    mid := slow.next;
    slow.next := null;
    forall j | 0 <= j < |ns| && j != k - 1 ensures ns[j].next == At(ns, j + 1) {
      assert ns[j] != ns[k - 1];
    }
  }

  /** Cuts a chain of two or more in two; shorter ones are handed back. */
  method Split<T>(head: Node?<T>, ghost ns: seq<Node<T>>) returns (mid: Node?<T>)
    requires Chain(head, ns)
    modifies ns
    ensures |ns| < 2 ==> mid == head && Chain(head, ns)
    ensures |ns| >= 2 ==> Chain(head, ns[..Half(|ns|)]) && Chain(mid, ns[Half(|ns|)..])
  {
    if head == null || head.next == null {
      return head;
    }
    var slow: Node<T>, fast := head, head.next;
    ghost var i := 0;
    while fast != null && fast.next != null
      invariant 2 * i + 1 <= |ns|
      invariant slow == ns[i] && fast == At(ns, 2 * i + 1)
      invariant Chain(head, ns)
      decreases |ns| - i
    {
      slow := slow.next;
      fast := fast.next.next;
      i := i + 1;
    }
    mid := Cut(head, slow, Half(|ns|), ns);
  }

  lemma SameMembers<T>(a: seq<Node<T>>, b: seq<Node<T>>)
    requires multiset(a) == multiset(b)
    ensures forall n :: n in a <==> n in b
  {
    forall n ensures n in a <==> n in b {
      assert n in multiset(a) <==> n in multiset(b);
    }
  }

  lemma MergeWithin<T>(ls: seq<Node<T>>, rs: seq<Node<T>>, comp: Compare<T>)
    ensures forall n :: n in Merge(ls, rs, comp) <==> n in ls + rs
  {
    MergeContents(ls, rs, comp);
    SameMembers(Merge(ls, rs, comp), ls + rs);
  }

  ghost predicate Apart<T>(a: seq<Node<T>>, b: seq<Node<T>>) {
    forall i :: 0 <= i < |a| ==> a[i] !in b
  }

  ghost predicate Within<T>(a: seq<Node<T>>, b: seq<Node<T>>) {
    forall i :: 0 <= i < |a| ==> a[i] in b
  }

  lemma WithinByCount<T>(a: seq<Node<T>>, b: seq<Node<T>>)
    requires multiset(a) == multiset(b)
    ensures Within(a, b)
  {
    forall i | 0 <= i < |a| ensures a[i] in b {
      assert a[i] in multiset(a);
    }
  }

  lemma SortWithin<T>(ns: seq<Node<T>>, comp: Compare<T>)
    ensures Within(Sort(ns, comp), ns)
  {
    SortContents(ns, comp);
    WithinByCount(Sort(ns, comp), ns);
  }

  lemma HeadNotInTail<T>(ns: seq<Node<T>>)
    requires ns != [] && Distinct(ns)
    ensures ns[0] !in ns[1..]
  {
  }

  /** Puts a node that is not in the chain in front of it. */
  method Link<T>(node: Node<T>, rest: Node?<T>, ghost ns: seq<Node<T>>)
    requires Chain(rest, ns) && node !in ns
    modifies node
    ensures Chain(node, [node] + ns)
  {
    node.next := rest;
  }

  method MergeChains<T>(left: Node?<T>, right: Node?<T>, comp: Compare<T>,
                        ghost ls: seq<Node<T>>, ghost rs: seq<Node<T>>) returns (head: Node?<T>)
    requires Chain(left, ls) && Chain(right, rs)
    requires forall n :: n in ls ==> n !in rs
    modifies ls, rs
    ensures Chain(head, Merge(ls, rs, comp))
    decreases |ls| + |rs|
  {
    if left == null {
      return right;
    }
    if right == null {
      return left;
    }
    HeadNotInTail(ls);
    HeadNotInTail(rs);
    if comp(left.data, right.data) <= 0 {
      MergeWithin(ls[1..], rs, comp);
      var rest := MergeChains(left.next, right, comp, ls[1..], rs);
      Link(left, rest, Merge(ls[1..], rs, comp));
      return left;
    } else {
      MergeWithin(ls, rs[1..], comp);
      var rest := MergeChains(left, right.next, comp, ls, rs[1..]);
      Link(right, rest, Merge(ls, rs[1..], comp));
      return right;
    }
  }

  method MergeSort<T>(head: Node?<T>, comp: Compare<T>, ghost ns: seq<Node<T>>) returns (sorted: Node?<T>)
    requires Chain(head, ns)
    modifies ns
    ensures Chain(sorted, Sort(ns, comp))
    decreases |ns|, 1
  {
    if head == null || head.next == null {
      return head;
    }
    ghost var ls, rs := ns[..Half(|ns|)], ns[Half(|ns|)..];
    ghost var sl, sr := Sort(ls, comp), Sort(rs, comp);
    HalvesApart(ns, comp);
    SortUnfolds(ns, comp);
    var mid := Split(head, ns);
    sorted := SortHalves(head, mid, comp, ls, rs, sl, sr);
  }

  lemma SortUnfolds<T>(ns: seq<Node<T>>, comp: Compare<T>)
    requires |ns| >= 2
    ensures Sort(ns, comp) == Merge(Sort(ns[..Half(|ns|)], comp), Sort(ns[Half(|ns|)..], comp), comp)
  {
  }

  method SortHalves<T>(head: Node?<T>, mid: Node?<T>, comp: Compare<T>, ghost ls: seq<Node<T>>, ghost rs: seq<Node<T>>,
                       ghost sl: seq<Node<T>>, ghost sr: seq<Node<T>>) returns (sorted: Node?<T>)
    requires Chain(head, ls) && Chain(mid, rs) && ls != [] && rs != []
    requires sl == Sort(ls, comp) && sr == Sort(rs, comp)
    requires Apart(ls, rs) && Apart(sl, rs) && Apart(sl, sr) && Within(sl, ls) && Within(sr, rs)
    modifies ls, rs
    ensures Chain(sorted, Merge(sl, sr, comp))
    decreases |ls| + |rs|, 0
  {
    hide Sort, Merge;
    var left := MergeSort(head, comp, ls);
    assert Chain(mid, rs);
    var right := MergeSort(mid, comp, rs);
    assert Chain(left, sl);
    sorted := MergeChains(left, right, comp, sl, sr);
  }

  lemma HalvesApart<T>(ns: seq<Node<T>>, comp: Compare<T>)
    requires Distinct(ns) && |ns| >= 2
    ensures var ls, rs := ns[..Half(|ns|)], ns[Half(|ns|)..];
      && Apart(ls, rs) && Apart(Sort(ls, comp), rs) && Apart(Sort(ls, comp), Sort(rs, comp))
      && Within(Sort(ls, comp), ls) && Within(Sort(rs, comp), rs)
      && (forall n :: n in ls ==> n in ns) && (forall n :: n in rs ==> n in ns)
  {
    var ls, rs := ns[..Half(|ns|)], ns[Half(|ns|)..];
    SortWithin(ls, comp);
    SortWithin(rs, comp);
    WithinApart(Sort(ls, comp), ls, rs);
    ApartWithin(Sort(ls, comp), rs, Sort(rs, comp));
  }

  lemma ApartWithin<T>(a: seq<Node<T>>, b: seq<Node<T>>, c: seq<Node<T>>)
    requires Apart(a, b) && Within(c, b)
    ensures Apart(a, c)
  {
  }

  lemma WithinApart<T>(a: seq<Node<T>>, b: seq<Node<T>>, c: seq<Node<T>>)
    requires Within(a, b) && Apart(b, c)
    ensures Apart(a, c)
  {
    forall i | 0 <= i < |a| ensures a[i] !in c {
      var j :| 0 <= j < |b| && b[j] == a[i];
    }
  }

  /** There are through nodes up to and including last; size counts all nodes and those that were
      cut off. */
  ghost predicate Ends<T>(ns: seq<Node<T>>, last: Node?<T>, through: nat, size: nat) {
    && |ns| <= size && through <= |ns|
    && last == (if through == 0 then null else ns[through - 1])
    && (if ns == [] then size == 0 else through > 0)
  }

  lemma EndsPush<T>(ns: seq<Node<T>>, last: Node?<T>, through: nat, size: nat, node: Node<T>)
    requires Ends(ns, last, through, size)
    ensures Ends(ns[..through] + [node], node, through + 1, size + 1)
    ensures through <= |ns|
    ensures last == null ==> ns == [] && through == 0
    ensures last != null ==> 0 < through && last == ns[through - 1]
    ensures through + 1 == size + 1 <==> |ns| == size && through == |ns|
  {
  }

  lemma EndsInsert<T>(ns: seq<Node<T>>, last: Node?<T>, through: nat, size: nat, p: nat, node: Node<T>)
    requires Ends(ns, last, through, size) && p <= |ns|
    ensures (size == 0 <==> ns == []) && (through == 0 <==> ns == [])
    ensures var now := ns[..p] + [node] + ns[p..];
      if p == |ns| then Ends(now, node, |ns| + 1, size + 1)
      else Ends(now, last, if p < through then through + 1 else through, size + 1)
  {
  }

  class List<T> {
    var first: Node?<T>
    var last: Node?<T>
    var size: nat
    ghost var nodes: seq<Node<T>>
    ghost var through: nat

    ghost predicate Linked()
      reads this, nodes
    {
      Chain(first, nodes) && Ends(nodes, last, through, size)
    }

    ghost predicate Valid()
      reads this, nodes
    {
      Linked() && size == |nodes|
    }

    /** No node stands behind last; sorting does not keep this up. */
    ghost predicate LastOk()
      reads this
    {
      through == |nodes|
    }

    constructor ()
      ensures Valid() && LastOk() && nodes == []
    {
      first, last, size, nodes, through := null, null, 0, [], 0;
    }
  }

  /** Links node in behind the k-th node; what stood there is cut off. */
  method LinkEnd<T>(last: Node<T>, node: Node<T>, ghost k: nat, ghost head: Node?<T>, ghost ns: seq<Node<T>>)
    requires Chain(head, ns) && 0 < k <= |ns| && last == ns[k - 1] && node !in ns && node.next == null
    modifies last
    ensures Chain(head, ns[..k] + [node])
  {
    last.next := node;
    ghost var now := ns[..k] + [node];
    forall i | 0 <= i < |now| ensures now[i].next == At(now, i + 1) {
      if i < k - 1 {
        assert ns[i] != ns[k - 1];
      }
    }
  }

  lemma ChainOfOne<T>(node: Node<T>)
    requires node.next == null
    ensures Chain(node, [node])
  {
  }

  /** Whatever stood behind last is cut off; size counts it all the same. */
  method PushBack<T>(l: List?<T>, data: T) returns (err: int)
    requires l != null ==> l.Linked()
    modifies l, if l == null then [] else l.nodes
    ensures err == if l == null then DEREFERENCING_NULL_PTR else EXIT_SUCCESS
    ensures l != null ==>
      && l.Linked() && l.LastOk()
      && l.last != null && fresh(l.last) && l.last.data == data
      && l.nodes == old(l.nodes)[..old(l.through)] + [l.last]
      && l.size == old(l.size) + 1
      && (l.Valid() <==> old(l.Valid() && l.LastOk()))
  {
    if l == null {
      return DEREFERENCING_NULL_PTR;
    }
    hide Chain, Ends, Distinct;
    var node := new Node(data);
    PushNode(l, node);
    return EXIT_SUCCESS;
  }

  method PushNode<T>(l: List<T>, node: Node<T>)
    requires l.Linked() && node !in l.nodes && node.next == null
    modifies l, l.nodes
    ensures l.Linked() && l.LastOk() && l.last == node
    ensures l.nodes == old(l.nodes)[..old(l.through)] + [node]
    ensures l.size == old(l.size) + 1
    ensures l.Valid() <==> old(l.Valid() && l.LastOk())
  {
    hide Chain, Ends, Distinct;
    EndsPush(l.nodes, l.last, l.through, l.size, node);
    if l.last == null {
      ChainOfOne(node);
      assert l.nodes[..l.through] + [node] == [node];
      l.first := node;
    } else {
      LinkEnd(l.last, node, l.through, l.first, l.nodes);
    }
    l.nodes := l.nodes[..l.through] + [node];
    l.through := l.through + 1;
    l.last := node;
    l.size := l.size + 1;
  }

  /** The first node that data does not come after, and the node before it. */
  method FindPlace<T>(first: Node<T>, data: T, comp: Compare<T>, ghost ns: seq<Node<T>>)
    returns (father: Node<T>, item: Node?<T>)
    requires Chain(first, ns) && comp(data, first.data) > 0
    ensures var p := Place(ns, data, comp);
      0 < p <= |ns| && father == ns[p - 1] && item == At(ns, p)
  {
    hide Place, Distinct;
    var before: Node?<T> := null;
    item := first;
    ghost var p := 0;
    while item != null && comp(data, item.data) > 0
      invariant p <= |ns| && item == At(ns, p)
      invariant if p == 0 then before == null else before == ns[p - 1]
      invariant forall i :: 0 <= i < p ==> comp(data, ns[i].data) > 0
      decreases |ns| - p
    {
      before := item;
      item := item.next;
      p := p + 1;
    }
    PlaceIs(ns, data, p, comp);
    father := before;
  }

  lemma DistinctWith<T>(ns: seq<Node<T>>, p: nat, node: Node<T>)
    requires Distinct(ns) && 0 < p <= |ns| && node !in ns
    ensures Distinct(ns[..p] + [node] + ns[p..])
    ensures forall i :: 0 <= i < |ns| && i != p - 1 ==> ns[i] != ns[p - 1]
  {
  }

  /** Links a new node in behind father, the p-th node of the chain. */
  method LinkAfter<T>(father: Node<T>, node: Node<T>, item: Node?<T>,
                      ghost p: nat, ghost head: Node?<T>, ghost ns: seq<Node<T>>)
    requires Chain(head, ns) && 0 < p <= |ns| && father == ns[p - 1] && item == At(ns, p) && node !in ns
    modifies father, node
    ensures Chain(head, ns[..p] + [node] + ns[p..]) && node.next == item
  {
    hide Distinct;
    DistinctWith(ns, p, node);
    father.next := node;
    node.next := item;
    ghost var now := ns[..p] + [node] + ns[p..];
    forall i | 0 <= i < |now| ensures now[i].next == At(now, i + 1) {
      if i < p - 1 {
        assert ns[i] != ns[p - 1];
      } else if i > p {
        assert ns[i - 1] != ns[p - 1] && now[i] == ns[i - 1];
      }
    }
  }

  method InsertSorted<T>(l: List?<T>, data: T, comp: Compare<T>) returns (err: int)
    requires l != null ==> l.Linked()
    modifies l, if l == null then [] else l.nodes
    ensures err == if l == null then DEREFERENCING_NULL_PTR else EXIT_SUCCESS
    ensures l != null ==>
      && l.Linked() && l.size == old(l.size) + 1
      && var p := Place(old(l.nodes), data, comp);
      && |l.nodes| == |old(l.nodes)| + 1
      && l.last == (if p == |old(l.nodes)| then l.nodes[p] else old(l.last))
      && (old(l.LastOk()) || p == |old(l.nodes)| ==> l.LastOk())
      && fresh(l.nodes[p]) && l.nodes[p].data == data
      && l.nodes == old(l.nodes)[..p] + [l.nodes[p]] + old(l.nodes)[p..]
  {
    if l == null {
      return DEREFERENCING_NULL_PTR;
    }
    hide Chain, Place, Distinct, Ends;
    var node := new Node(data);
    InsertNode(l, node, comp);
    return EXIT_SUCCESS;
  }

  method InsertNode<T>(l: List<T>, node: Node<T>, comp: Compare<T>)
    requires l.Linked() && node !in l.nodes
    modifies l, l.nodes, node
    ensures l.Linked() && l.size == old(l.size) + 1
    ensures var p := Place(old(l.nodes), node.data, comp);
      && l.nodes == old(l.nodes)[..p] + [node] + old(l.nodes)[p..]
      && l.last == (if p == |old(l.nodes)| then node else old(l.last))
      && (old(l.LastOk()) || p == |old(l.nodes)| ==> l.LastOk())
  {
    hide Chain, Place, Distinct, Ends;
    if l.first == null || comp(node.data, l.first.data) <= 0 {
      PlaceIsFirst(l.first, node.data, comp, l.nodes);
      InsertFirst(l, node);
    } else {
      ghost var p := Place(l.nodes, node.data, comp);
      var father, item := FindPlace(l.first, node.data, comp, l.nodes);
      InsertLater(l, father, node, item, p);
    }
  }

  /** In front of the first node. */
  lemma PlaceIsFirst<T>(first: Node?<T>, data: T, comp: Compare<T>, ns: seq<Node<T>>)
    requires Chain(first, ns) && (first == null || comp(data, first.data) <= 0)
    ensures Place(ns, data, comp) == 0
  {
  }

  method InsertFirst<T>(l: List<T>, node: Node<T>)
    requires l.Linked() && node !in l.nodes
    modifies l, node
    ensures l.Linked() && l.nodes == [node] + old(l.nodes) && l.size == old(l.size) + 1
    ensures l.last == if old(l.nodes) == [] then node else old(l.last)
    ensures old(l.LastOk()) || old(l.nodes) == [] ==> l.LastOk()
  {
    hide Chain, Ends, Distinct;
    EndsInsert(l.nodes, l.last, l.through, l.size, 0, node);
    assert l.nodes[..0] + [node] + l.nodes[0..] == [node] + l.nodes;
    Link(node, l.first, l.nodes);
    l.first := node;
    l.size := l.size + 1;
    if l.size == 1 {
      l.last := node;
    }
    l.through := l.through + 1;
    l.nodes := [node] + l.nodes;
  }

  method InsertLater<T>(l: List<T>, father: Node<T>, node: Node<T>, item: Node?<T>, ghost p: nat)
    requires l.Linked() && node !in l.nodes
    requires 0 < p <= |l.nodes| && father == l.nodes[p - 1] && item == At(l.nodes, p)
    modifies l, father, node
    ensures l.Linked() && l.nodes == old(l.nodes)[..p] + [node] + old(l.nodes)[p..]
    ensures l.size == old(l.size) + 1
    ensures l.last == if p == |old(l.nodes)| then node else old(l.last)
    ensures old(l.LastOk()) || p == |old(l.nodes)| ==> l.LastOk()
  {
    hide Chain, Ends, Distinct;
    EndsInsert(l.nodes, l.last, l.through, l.size, p, node);
    LinkAfter(father, node, item, p, l.first, l.nodes);
    l.size := l.size + 1;
    if node.next == null {
      l.last := node;
      l.through := |l.nodes| + 1;
    } else if p < l.through {
      l.through := l.through + 1;
    }
    l.nodes := l.nodes[..p] + [node] + l.nodes[p..];
  }

  lemma {:induction false} PlaceIs<T>(ns: seq<Node<T>>, x: T, p: nat, comp: Compare<T>)
    requires p <= |ns|
    requires forall i :: 0 <= i < p ==> comp(x, ns[i].data) > 0
    requires p < |ns| ==> comp(x, ns[p].data) <= 0
    ensures Place(ns, x, comp) == p
  {
    if p > 0 {
      PlaceIs(ns[1..], x, p - 1, comp);
    }
  }

  lemma EndsSort<T>(ns: seq<Node<T>>, last: Node?<T>, through: nat, size: nat, comp: Compare<T>) returns (k: nat)
    requires Ends(ns, last, through, size)
    ensures Ends(Sort(ns, comp), last, k, |ns|)
  {
    k := 0;
    if through > 0 {
      SortContents(ns, comp);
      k := SameMember(ns, Sort(ns, comp), through - 1);
      k := k + 1;
    }
  }

  /** Sorts in place and recounts; last is not touched. */
  method SortList<T>(l: List?<T>, comp: Compare<T>) returns (err: int)
    requires l != null ==> l.Linked()
    modifies l, if l == null then [] else l.nodes
    ensures err == if l == null then DEREFERENCING_NULL_PTR else EXIT_SUCCESS
    ensures l != null ==> l.Valid() && l.nodes == Sort(old(l.nodes), comp) && l.last == old(l.last)
  {
    if l == null {
      return DEREFERENCING_NULL_PTR;
    }
    hide Sort, Ends, Chain;
    SortNodes(l, comp);
    return EXIT_SUCCESS;
  }

  method SortNodes<T>(l: List<T>, comp: Compare<T>)
    requires l.Linked()
    modifies l, l.nodes
    ensures l.Valid() && l.nodes == Sort(old(l.nodes), comp) && l.last == old(l.last)
  {
    hide Sort, Ends, Chain;
    ghost var was := l.nodes;
    ghost var k := EndsSort(was, l.last, l.through, l.size, comp);
    l.first := MergeSort(l.first, comp, was);
    l.nodes, l.through := Sort(was, comp), k;
    l.size := CountNodes(l.first, l.nodes);
  }

  method CountNodes<T>(head: Node?<T>, ghost ns: seq<Node<T>>) returns (size: nat)
    requires Chain(head, ns)
    ensures size == |ns|
  {
    size := 0;
    var temp := head;
    while temp != null
      invariant size <= |ns| && temp == At(ns, size)
      decreases |ns| - size
    {
      size := size + 1;
      temp := temp.next;
    }
  }
}
