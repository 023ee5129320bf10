/** The chained table of include/hash_table.h: set, get and growth on an array of chains, and
    where it is the map it is meant to be.  Growth files every chain under its old index. */
module HashTable {
  import opened Options
  import opened Quotients

  const HASHSIZE := 128
  const EXIT_SUCCESS := 0
  const KEY_NOT_FOUND := 17

  datatype Entry<K, V> = Entry(key: K, value: V)

  /** The fields that set and get work on; the capacity is the number of buckets. */
  datatype Table<K, V> = Table(buckets: seq<seq<Entry<K, V>>>, size: nat, minChain: nat, maxChain: nat)

  /** The table's two functions: hash(key, capacity) and a comparer of keys. */
  datatype Functions<!K> = Functions(hash: (K, nat) -> nat, comparer: (K, K) -> int)

  ghost predicate Usable<K(!new)>(f: Functions<K>) {
    && (forall k, c: nat :: c > 0 ==> f.hash(k, c) < c)
    && (forall a, b :: f.comparer(a, b) == 0 <==> a == b)
  }

  ghost predicate InRange<K(!new)>(f: Functions<K>) {
    forall k, c: nat :: c > 0 ==> f.hash(k, c) < c
  }

  // ---------------------------------------------------------------- the code on values

  /** The first entry from i on whose key compares equal, or -1. */
  function Find<K, V>(chain: seq<Entry<K, V>>, key: K, f: Functions<K>, i: nat): (r: int)
    requires i <= |chain|
    ensures r == -1 || i <= r < |chain|
    ensures r != -1 ==> f.comparer(chain[r].key, key) == 0
    ensures r == -1 ==> forall j :: i <= j < |chain| ==> f.comparer(chain[j].key, key) != 0
    decreases |chain| - i
  {
    if i == |chain| then -1
    else if f.comparer(chain[i].key, key) == 0 then i
    else Find(chain, key, f, i + 1)
  }

  function Init<K, V>(): (t: Table<K, V>) {
    Table(seq(HASHSIZE, i => []), 0, 0, 0)
  }

  function Reverse<T>(s: seq<T>): (r: seq<T>)
    ensures |r| == |s|
  {
    if s == [] then [] else Reverse(s[1..]) + [s[0]]
  }

  /** Twice the buckets; every chain keeps its index and is turned round. */
  function Grow<K, V>(t: Table<K, V>): (r: Table<K, V>)
    ensures |r.buckets| == 2 * |t.buckets|
  {
    t.(buckets := seq(2 * |t.buckets|, i requires 0 <= i < 2 * |t.buckets| =>
                      if i < |t.buckets| then Reverse(t.buckets[i]) else []))
  }

  /** Load factor over 0.75, or a chain length factor of at least 2. */
  predicate MustGrow<K, V>(t: Table<K, V>) {
    4 * t.size > 3 * |t.buckets| || (t.minChain > 0 && t.maxChain >= 2 * t.minChain)
  }

  /** The table right after a new entry has gone in at the head of its chain. */
  function Insert<K, V>(t: Table<K, V>, i: nat, e: Entry<K, V>): (r: Table<K, V>)
    requires i < |t.buckets|
  {
    var chain := [e] + t.buckets[i];
    Table(t.buckets[i := chain], t.size + 1, t.minChain, if |chain| > t.maxChain then |chain| else t.maxChain)
  }

  function Overwrite<K, V>(t: Table<K, V>, i: nat, j: nat, v: V): (r: Table<K, V>)
    requires i < |t.buckets| && j < |t.buckets[i]|
  {
    t.(buckets := t.buckets[i := t.buckets[i][j := Entry(t.buckets[i][j].key, v)]])
  }

  function Set<K, V>(t: Table<K, V>, k: K, v: V, f: Functions<K>): (r: Table<K, V>)
    requires f.hash(k, |t.buckets|) < |t.buckets|
  {
    var i := f.hash(k, |t.buckets|);
    var j := Find(t.buckets[i], k, f, 0);
    if j != -1 then Overwrite(t, i, j, v)
    else
      var t1 := Insert(t, i, Entry(k, v));
      if MustGrow(t1) then Grow(t1) else t1
  }

  /** A chain of one is taken without looking at its key. */
  function Get<K, V>(t: Table<K, V>, k: K, f: Functions<K>): (r: Option<V>)
    requires f.hash(k, |t.buckets|) < |t.buckets|
  {
    var chain := t.buckets[f.hash(k, |t.buckets|)];
    if |chain| == 1 then Some(chain[0].value)
    else
      var j := Find(chain, k, f, 0);
      if j == -1 then None else Some(chain[j].value)
  }

  // ---------------------------------------------------------------- the code in place

  class HashTable<K(!new), V> {
    var buckets: array<seq<Entry<K, V>>>
    var size: nat
    var minChain: nat
    var maxChain: nat
    const f: Functions<K>

    ghost function View(): Table<K, V>
      reads this, buckets
    {
      Table(buckets[..], size, minChain, maxChain)
    }

    constructor (f: Functions<K>)
      ensures this.f == f && fresh(buckets) && View() == Init<K, V>()
    {
      this.f := f;
      buckets := new seq<Entry<K, V>>[HASHSIZE](i => []);
      size, minChain, maxChain := 0, 0, 0;
      new;
      assert buckets[..] == Init<K, V>().buckets;
    }

    static method FindNode(chain: seq<Entry<K, V>>, key: K, f: Functions<K>) returns (r: int)
      ensures r == Find(chain, key, f, 0)
    {
      for i := 0 to |chain|
        invariant Find(chain, key, f, 0) == Find(chain, key, f, i)
      {
        if f.comparer(chain[i].key, key) == 0 {
          return i;
        }
      }
      return -1;
    }

    method SetKey(key: K, value: V)
      requires InRange(f) && buckets.Length > 0
      modifies this, buckets
      ensures View() == Set(old(View()), key, value, f)
      ensures buckets == old(buckets) || fresh(buckets)
    {
      ghost var t := View();
      var index := f.hash(key, buckets.Length);
      var j := FindNode(buckets[index], key, f);
      if j != -1 {
        buckets[index] := buckets[index][j := Entry(buckets[index][j].key, value)];
        return;
      }
      buckets[index] := [Entry(key, value)] + buckets[index];
      size := size + 1;
      if |buckets[index]| > maxChain {
        maxChain := |buckets[index]|;
      }
      assert View() == Insert(t, index, Entry(key, value));
      if 4 * size > 3 * buckets.Length || (minChain > 0 && maxChain >= 2 * minChain) {
        Resize();
      }
    }

    method GetKey(key: K) returns (err: int, value: Option<V>)
      requires InRange(f) && buckets.Length > 0
      ensures value == Get(View(), key, f)
      ensures err == if value.Some? then EXIT_SUCCESS else KEY_NOT_FOUND
    {
      var index := f.hash(key, buckets.Length);
      if |buckets[index]| == 1 {
        return EXIT_SUCCESS, Some(buckets[index][0].value);
      }
      var j := FindNode(buckets[index], key, f);
      if j == -1 {
        return KEY_NOT_FOUND, None;
      }
      return EXIT_SUCCESS, Some(buckets[index][j].value);
    }

    /** Doubles the capacity. */
    method Resize()
      modifies this
      ensures View() == Grow(old(View())) && fresh(buckets)
    {
      ghost var was := buckets[..];
      var newBuckets := new seq<Entry<K, V>>[2 * buckets.Length](i => []);
      for i := 0 to buckets.Length
        invariant buckets[..] == was && View() == old(View())
        invariant forall x :: 0 <= x < i ==> newBuckets[x] == Reverse(was[x])
        invariant forall x :: i <= x < newBuckets.Length ==> newBuckets[x] == []
      {
        var chain, j := buckets[i], 0;
        while j < |chain|
          invariant j <= |chain| == |was[i]| && chain == was[i]
          invariant buckets[..] == was && View() == old(View())
          invariant forall x :: 0 <= x < i ==> newBuckets[x] == Reverse(was[x])
          invariant forall x :: i < x < newBuckets.Length ==> newBuckets[x] == []
          invariant Reverse(chain[j..]) + newBuckets[i] == Reverse(chain)
        {
          newBuckets[i] := [chain[j]] + newBuckets[i];
          j := j + 1;
        }
      }
      buckets := newBuckets;
      assert buckets[..] == Grow(old(View())).buckets;
    }
  }

  // ---------------------------------------------------------------- what the table stands for

  /** Every entry sits in the bucket that its hash names. */
  ghost predicate Placed<K, V>(t: Table<K, V>, f: Functions<K>) {
    forall i, j :: 0 <= i < |t.buckets| && 0 <= j < |t.buckets[i]| ==>
      f.hash(t.buckets[i][j].key, |t.buckets|) == i
  }

  ghost predicate NoRepeats<K, V>(t: Table<K, V>) {
    forall i, j, l :: 0 <= i < |t.buckets| && 0 <= j < l < |t.buckets[i]| ==>
      t.buckets[i][j].key != t.buckets[i][l].key
  }

  /** The table holds exactly the entries of m, each where it can be found. */
  ghost predicate Represents<K, V>(t: Table<K, V>, m: map<K, V>, f: Functions<K>) {
    && |t.buckets| > 0 && t.minChain == 0
    && Placed(t, f) && NoRepeats(t)
    && (forall i, j :: 0 <= i < |t.buckets| && 0 <= j < |t.buckets[i]| ==>
          t.buckets[i][j].key in m && m[t.buckets[i][j].key] == t.buckets[i][j].value)
    && (forall k :: k in m ==>
          (f.hash(k, |t.buckets|) < |t.buckets| && Entry(k, m[k]) in t.buckets[f.hash(k, |t.buckets|)]))
    && t.size == |m|
  }

  /** What get returns: the latest value of a stored key; for an absent key the value of
      whatever is alone in its bucket, and nothing only when the bucket holds none or several. */
  lemma GetOnMap<K(!new), V>(t: Table<K, V>, m: map<K, V>, k: K, f: Functions<K>)
    requires Usable(f) && Represents(t, m, f)
    ensures var chain := t.buckets[f.hash(k, |t.buckets|)];
      Get(t, k, f) == if k in m then Some(m[k]) else if |chain| == 1 then Some(chain[0].value) else None
  {
    var chain := t.buckets[f.hash(k, |t.buckets|)];
    if k in m {
      var j :| 0 <= j < |chain| && chain[j] == Entry(k, m[k]);
      assert f.comparer(chain[j].key, k) == 0;
    }
  }

  lemma OverwriteRepresents<K(!new), V>(t: Table<K, V>, m: map<K, V>, k: K, v: V, f: Functions<K>)
    requires Usable(f) && Represents(t, m, f)
    requires Find(t.buckets[f.hash(k, |t.buckets|)], k, f, 0) != -1
    ensures k in m && Represents(Set(t, k, v, f), m[k := v], f)
  {
    var i := f.hash(k, |t.buckets|);
    var j := Find(t.buckets[i], k, f, 0);
    assert t.buckets[i][j].key == k;
    OverwriteAt(t, m, i, j, v, f);
  }

  lemma OverwriteAt<K(!new), V>(t: Table<K, V>, m: map<K, V>, i: nat, j: nat, v: V, f: Functions<K>)
    requires Usable(f) && Represents(t, m, f) && i < |t.buckets| && j < |t.buckets[i]|
    ensures Represents(Overwrite(t, i, j, v), m[t.buckets[i][j].key := v], f)
  {
    var k, r := t.buckets[i][j].key, Overwrite(t, i, j, v);
    var m' := m[k := v];
    assert m'.Keys == m.Keys;
    forall b, l | 0 <= b < |r.buckets| && 0 <= l < |r.buckets[b]|
      ensures r.buckets[b][l].key == t.buckets[b][l].key
      ensures r.buckets[b][l].key in m' && m'[r.buckets[b][l].key] == r.buckets[b][l].value
    {
      assert f.hash(t.buckets[b][l].key, |t.buckets|) == b;
    }
    forall x | x in m' ensures Entry(x, m'[x]) in r.buckets[f.hash(x, |t.buckets|)] {
      if x == k {
        assert r.buckets[i][j] == Entry(k, v);
      } else {
        OverwriteKeeps(t, i, j, v, f.hash(x, |t.buckets|), Entry(x, m[x]));
      }
    }
  }

  lemma OverwriteKeeps<K, V>(t: Table<K, V>, i: nat, j: nat, v: V, b: nat, x: Entry<K, V>)
    requires i < |t.buckets| && j < |t.buckets[i]| && b < |t.buckets| && x in t.buckets[b]
    requires x.key != t.buckets[i][j].key
    ensures x in Overwrite(t, i, j, v).buckets[b]
  {
    var l :| 0 <= l < |t.buckets[b]| && t.buckets[b][l] == x;
    assert Overwrite(t, i, j, v).buckets[b][l] == x;
  }

  lemma InsertRepresents<K(!new), V>(t: Table<K, V>, m: map<K, V>, k: K, v: V, f: Functions<K>)
    requires Usable(f) && Represents(t, m, f)
    requires Find(t.buckets[f.hash(k, |t.buckets|)], k, f, 0) == -1
    ensures k !in m
    ensures Represents(Insert(t, f.hash(k, |t.buckets|), Entry(k, v)), m[k := v], f)
  {
    var i := f.hash(k, |t.buckets|);
    var r := Insert(t, i, Entry(k, v));
    forall j | 0 <= j < |t.buckets[i]| ensures t.buckets[i][j].key != k {
      assert f.comparer(t.buckets[i][j].key, k) != 0;
    }
    forall x | x in m[k := v] ensures Entry(x, m[k := v][x]) in r.buckets[f.hash(x, |t.buckets|)] {
      if x == k {
        assert r.buckets[i][0] == Entry(k, v);
      } else {
        InsertKeeps(t, i, Entry(k, v), f.hash(x, |t.buckets|), Entry(x, m[x]));
      }
    }
  }

  lemma InsertKeeps<K, V>(t: Table<K, V>, i: nat, e: Entry<K, V>, b: nat, x: Entry<K, V>)
    requires i < |t.buckets| && b < |t.buckets| && x in t.buckets[b]
    ensures x in Insert(t, i, e).buckets[b]
  {
    var l :| 0 <= l < |t.buckets[b]| && t.buckets[b][l] == x;
    assert Insert(t, i, e).buckets[b][if b == i then l + 1 else l] == x;
  }

  lemma {:induction false} ReverseAt<T>(s: seq<T>, i: nat)
    requires i < |s|
    ensures Reverse(s)[i] == s[|s| - 1 - i]
  {
    if i < |s| - 1 {
      ReverseAt(s[1..], i);
    }
  }

  /** Growth leaves every entry where its hash names it exactly when no stored key's hash
      changes with the capacity. */
  lemma GrowPlacedExactly<K(!new), V>(t: Table<K, V>, f: Functions<K>)
    requires Usable(f) && |t.buckets| > 0 && Placed(t, f)
    ensures Placed(Grow(t), f)
       <==> forall i, j :: 0 <= i < |t.buckets| && 0 <= j < |t.buckets[i]| ==>
              f.hash(t.buckets[i][j].key, 2 * |t.buckets|) == f.hash(t.buckets[i][j].key, |t.buckets|)
  {
    var r, c := Grow(t), |t.buckets|;
    if Placed(r, f) {
      forall i, j | 0 <= i < c && 0 <= j < |t.buckets[i]|
        ensures f.hash(t.buckets[i][j].key, 2 * c) == f.hash(t.buckets[i][j].key, c)
      {
        var l := |t.buckets[i]| - 1 - j;
        ReverseAt(t.buckets[i], l);
        assert f.hash(r.buckets[i][l].key, |r.buckets|) == i;
      }
    }
    if forall i, j :: 0 <= i < c && 0 <= j < |t.buckets[i]| ==>
         f.hash(t.buckets[i][j].key, 2 * c) == f.hash(t.buckets[i][j].key, c) {
      forall i, j | 0 <= i < |r.buckets| && 0 <= j < |r.buckets[i]| ensures f.hash(r.buckets[i][j].key, 2 * c) == i {
        var l := |t.buckets[i]| - 1 - j;
        ReverseAt(t.buckets[i], j);
        assert r.buckets[i][j] == t.buckets[i][l];
        assert f.hash(t.buckets[i][l].key, 2 * c) == f.hash(t.buckets[i][l].key, c);
      }
    }
  }

  ghost predicate SettledFor<K, V>(m: map<K, V>, c: nat, f: Functions<K>) {
    forall k :: k in m ==> f.hash(k, 2 * c) == f.hash(k, c)
  }

  lemma ReverseMember<T>(s: seq<T>, x: T)
    requires x in s
    ensures x in Reverse(s)
  {
    var i :| 0 <= i < |s| && s[i] == x;
    ReverseAt(s, |s| - 1 - i);
  }

  lemma GrowAt<K, V>(t: Table<K, V>, i: nat, j: nat)
    requires i < 2 * |t.buckets| && j < |Grow(t).buckets[i]|
    ensures i < |t.buckets| && |Grow(t).buckets[i]| == |t.buckets[i]|
    ensures Grow(t).buckets[i][j] == t.buckets[i][|t.buckets[i]| - 1 - j]
  {
    ReverseAt(t.buckets[i], j);
  }

  lemma GrowKeepsOrder<K, V>(t: Table<K, V>)
    requires NoRepeats(t)
    ensures NoRepeats(Grow(t))
  {
    var r := Grow(t);
    forall i, j, l | 0 <= i < |r.buckets| && 0 <= j < l < |r.buckets[i]|
      ensures r.buckets[i][j].key != r.buckets[i][l].key
    {
      GrowAt(t, i, j);
      GrowAt(t, i, l);
    }
  }

  lemma GrowRepresents<K(!new), V>(t: Table<K, V>, m: map<K, V>, f: Functions<K>)
    requires Usable(f) && Represents(t, m, f) && SettledFor(m, |t.buckets|, f)
    ensures Represents(Grow(t), m, f)
  {
    var r, c := Grow(t), |t.buckets|;
    GrowPlacedExactly(t, f);
    GrowKeepsOrder(t);
    forall i, j | 0 <= i < |r.buckets| && 0 <= j < |r.buckets[i]|
      ensures r.buckets[i][j].key in m && m[r.buckets[i][j].key] == r.buckets[i][j].value
    {
      GrowAt(t, i, j);
    }
    forall k | k in m ensures Entry(k, m[k]) in r.buckets[f.hash(k, |r.buckets|)] {
      ReverseMember(t.buckets[f.hash(k, c)], Entry(k, m[k]));
    }
  }

  // ---------------------------------------------------------------- runs of sets

  function SetAll<K(!new), V>(pairs: seq<(K, V)>, f: Functions<K>): (t: Table<K, V>)
    requires InRange(f)
    ensures |t.buckets| > 0
  {
    if pairs == [] then Init()
    else Set(SetAll(pairs[..|pairs| - 1], f), pairs[|pairs| - 1].0, pairs[|pairs| - 1].1, f)
  }

  /** The latest value of every key set. */
  function MapAll<K, V>(pairs: seq<(K, V)>): (m: map<K, V>) {
    if pairs == [] then map[] else MapAll(pairs[..|pairs| - 1])[pairs[|pairs| - 1].0 := pairs[|pairs| - 1].1]
  }

  /** If the n-th set makes the table grow, no key set so far changes its index. */
  ghost predicate SettledAt<K(!new), V>(pairs: seq<(K, V)>, n: nat, f: Functions<K>)
    requires InRange(f) && 0 < n <= |pairs|
  {
    var c := |SetAll(pairs[..n - 1], f).buckets|;
    4 * |MapAll(pairs[..n])| > 3 * c ==> SettledFor(MapAll(pairs[..n]), c, f)
  }

  ghost predicate Settled<K(!new), V>(pairs: seq<(K, V)>, f: Functions<K>)
    requires InRange(f)
  {
    forall n :: 0 < n <= |pairs| ==> SettledAt(pairs, n, f)
  }

  lemma SetRepresents<K(!new), V>(t: Table<K, V>, m: map<K, V>, k: K, v: V, f: Functions<K>)
    requires Usable(f) && Represents(t, m, f)
    requires 4 * |m[k := v]| > 3 * |t.buckets| ==> SettledFor(m[k := v], |t.buckets|, f)
    ensures Represents(Set(t, k, v, f), m[k := v], f)
    ensures 4 * |m[k := v]| <= 3 * |t.buckets| ==> |Set(t, k, v, f).buckets| == |t.buckets|
  {
    var i := f.hash(k, |t.buckets|);
    if Find(t.buckets[i], k, f, 0) != -1 {
      OverwriteRepresents(t, m, k, v, f);
    } else {
      InsertRepresents(t, m, k, v, f);
      var t1 := Insert(t, i, Entry(k, v));
      if MustGrow(t1) {
        GrowRepresents(t1, m[k := v], f);
      }
    }
  }

  lemma SettledPrefix<K(!new), V>(pairs: seq<(K, V)>, f: Functions<K>)
    requires InRange(f) && Settled(pairs, f) && pairs != []
    ensures var before := pairs[..|pairs| - 1]; var c := |SetAll(before, f).buckets|;
      Settled(before, f) && (4 * |MapAll(pairs)| > 3 * c ==> SettledFor(MapAll(pairs), c, f))
  {
    var before := pairs[..|pairs| - 1];
    assert pairs[..|pairs|] == pairs;
    assert SettledAt(pairs, |pairs|, f);
    forall n | 0 < n <= |before| ensures SettledAt(before, n, f) {
      assert SettledAt(pairs, n, f);
      assert before[..n] == pairs[..n] && before[..n - 1] == pairs[..n - 1];
    }
  }

  /** The table is the map of latest values on every run of sets whose growths are settled. */
  lemma {:induction false} SettledRunIsMap<K(!new), V>(pairs: seq<(K, V)>, f: Functions<K>)
    requires Usable(f) && Settled(pairs, f)
    ensures Represents(SetAll(pairs, f), MapAll(pairs), f)
  {
    if pairs != [] {
      var before := pairs[..|pairs| - 1];
      SettledPrefix(pairs, f);
      SettledRunIsMap(before, f);
      SetRepresents(SetAll(before, f), MapAll(before), pairs[|before|].0, pairs[|before|].1, f);
    }
  }

  lemma {:induction false} MapAllGrows<K, V>(pairs: seq<(K, V)>, n: nat)
    requires n <= |pairs|
    ensures |MapAll(pairs[..n])| <= |MapAll(pairs)|
    decreases |pairs|
  {
    if n < |pairs| {
      var before := pairs[..|pairs| - 1];
      MapAllGrows(before, n);
      assert before[..n] == pairs[..n];
      var m, k := MapAll(before), pairs[|before|].0;
      assert MapAll(pairs).Keys == m.Keys + {k};
      assert |m.Keys| <= |m.Keys + {k}|;
    } else {
      assert pairs[..n] == pairs;
    }
  }

  /** Up to 96 distinct keys the table never grows, and is the map for every usable hash. */
  lemma {:induction false} FewKeysAreAMap<K(!new), V>(pairs: seq<(K, V)>, f: Functions<K>)
    requires Usable(f) && |MapAll(pairs)| <= 96
    ensures Represents(SetAll(pairs, f), MapAll(pairs), f)
    ensures |SetAll(pairs, f).buckets| == HASHSIZE
  {
    if pairs != [] {
      var before := pairs[..|pairs| - 1];
      MapAllGrows(pairs, |before|);
      FewKeysAreAMap(before, f);
      SetRepresents(SetAll(before, f), MapAll(before), pairs[|before|].0, pairs[|before|].1, f);
    }
  }

  /** Up to 96 distinct keys, get returns the latest value of every key that was set. */
  lemma LatestValue<K(!new), V>(pairs: seq<(K, V)>, k: K, f: Functions<K>)
    requires Usable(f) && |MapAll(pairs)| <= 96 && k in MapAll(pairs)
    ensures Get(SetAll(pairs, f), k, f) == Some(MapAll(pairs)[k])
    ensures SetAll(pairs, f).size == |MapAll(pairs)|
  {
    FewKeysAreAMap(pairs, f);
    GetOnMap(SetAll(pairs, f), MapAll(pairs), k, f);
  }

  // ---------------------------------------------------------------- what growth loses

  /** A hash that is a number reduced by the capacity, as all hashes of the source are. */
  ghost predicate Modular<K(!new)>(f: Functions<K>, value: K -> nat) {
    forall k, c: nat :: c > 0 ==> f.hash(k, c) == value(k) % c
  }

  lemma ModDouble(x: nat, c: nat)
    requires c > 0
    ensures x % (2 * c) == x % c || x % (2 * c) == x % c + c
    ensures x % (2 * c) == x % c <==> x % (2 * c) < c
  {
    var q, r := x / (2 * c), x % (2 * c);
    assert x == (2 * q) * c + r;
    if r < c {
      RemainderIs(x, c, 2 * q, r);
    } else {
      assert x == (2 * q + 1) * c + (r - c);
      RemainderIs(x, c, 2 * q + 1, r - c);
    }
  }

  /** After growth a stored key is found exactly when its hash stays below the old capacity;
      otherwise get looks into an empty bucket and reports the key missing. */
  lemma GrowthLosesExactly<K(!new), V>(t: Table<K, V>, m: map<K, V>, k: K, f: Functions<K>, value: K -> nat)
    requires Usable(f) && Modular(f, value) && Represents(t, m, f) && k in m
    ensures Get(Grow(t), k, f) == if value(k) % (2 * |t.buckets|) < |t.buckets| then Some(m[k]) else None
  {
    var r, c := Grow(t), |t.buckets|;
    ModDouble(value(k), c);
    var i := f.hash(k, 2 * c);
    if i < c {
      var chain := t.buckets[i];
      ReverseMember(chain, Entry(k, m[k]));
      assert r.buckets[i] == Reverse(chain);
      var j := Find(r.buckets[i], k, f, 0);
      var l :| 0 <= l < |r.buckets[i]| && r.buckets[i][l] == Entry(k, m[k]);
      assert f.comparer(r.buckets[i][l].key, k) == 0;
      ReverseAt(chain, if j == -1 then l else j);
      ReverseAt(chain, l);
    } else {
      assert r.buckets[i] == [];
    }
  }

  // ---------------------------------------------------------------- what every run keeps

  ghost function Contents<K, V>(buckets: seq<seq<Entry<K, V>>>): (r: multiset<Entry<K, V>>) {
    if buckets == [] then multiset{} else Contents(buckets[..|buckets| - 1]) + multiset(buckets[|buckets| - 1])
  }

  lemma {:induction false} ContentsUpdate<K, V>(buckets: seq<seq<Entry<K, V>>>, i: nat, chain: seq<Entry<K, V>>)
    requires i < |buckets|
    ensures Contents(buckets[i := chain]) + multiset(buckets[i]) == Contents(buckets) + multiset(chain)
  {
    var last := |buckets| - 1;
    if i == last {
      assert buckets[i := chain][..last] == buckets[..last];
    } else {
      ContentsUpdate(buckets[..last], i, chain);
      assert buckets[i := chain][..last] == buckets[..last][i := chain];
      assert buckets[..last][i] == buckets[i] && buckets[i := chain][last] == buckets[last];
      var a, b := Contents(buckets[i := chain][..last]), Contents(buckets[..last]);
      AddBoth(a, multiset(buckets[i]), b, multiset(chain), multiset(buckets[last]));
    }
  }

  lemma AddBoth<T>(a: multiset<T>, x: multiset<T>, b: multiset<T>, y: multiset<T>, more: multiset<T>)
    requires a + x == b + y
    ensures (a + more) + x == (b + more) + y
  {
    forall e ensures ((a + more) + x)[e] == ((b + more) + y)[e] {
      assert (a + x)[e] == (b + y)[e];
    }
  }

  lemma {:induction false} ReverseContents<T>(s: seq<T>)
    ensures multiset(Reverse(s)) == multiset(s)
  {
    if s != [] {
      ReverseContents(s[1..]);
      assert s == [s[0]] + s[1..];
    }
  }

  lemma {:induction false} ContentsReversed<K, V>(a: seq<seq<Entry<K, V>>>, b: seq<seq<Entry<K, V>>>)
    requires |a| == |b| && forall i :: 0 <= i < |a| ==> b[i] == Reverse(a[i])
    ensures Contents(b) == Contents(a)
  {
    if a != [] {
      ContentsReversed(a[..|a| - 1], b[..|a| - 1]);
      ReverseContents(a[|a| - 1]);
    }
  }

  lemma {:induction false} ContentsOfEmpty<K, V>(a: seq<seq<Entry<K, V>>>, b: seq<seq<Entry<K, V>>>)
    requires forall i :: 0 <= i < |b| ==> b[i] == []
    ensures Contents(a + b) == Contents(a)
  {
    if b == [] {
      assert a + b == a;
    } else {
      ContentsOfEmpty(a, b[..|b| - 1]);
      assert (a + b)[..|a + b| - 1] == a + b[..|b| - 1];
    }
  }

  /** Growth keeps the entries. */
  lemma GrowKeepsEntries<K, V>(t: Table<K, V>)
    ensures Contents(Grow(t).buckets) == Contents(t.buckets)
  {
    var g, c := Grow(t).buckets, |t.buckets|;
    ContentsReversed(t.buckets, g[..c]);
    ContentsOfEmpty(g[..c], g[c..]);
    assert g == g[..c] + g[c..];
  }

  ghost predicate Loaded<K, V>(t: Table<K, V>) {
    && |t.buckets| >= HASHSIZE && t.minChain == 0
    && t.size == |Contents(t.buckets)|
    && 4 * t.size <= 3 * |t.buckets|
  }

  /** One set replaces the value of one entry or adds one, also when a growth follows. */
  lemma SetContents<K(!new), V>(t: Table<K, V>, k: K, v: V, f: Functions<K>)
    requires Usable(f) && Loaded(t)
    ensures Loaded(Set(t, k, v, f))
    ensures var i := f.hash(k, |t.buckets|); var j := Find(t.buckets[i], k, f, 0);
      Contents(Set(t, k, v, f).buckets) + (if j == -1 then multiset{} else multiset{t.buckets[i][j]})
      == Contents(t.buckets) + multiset{Entry(k, v)}
  {
    var i := f.hash(k, |t.buckets|);
    var chain := t.buckets[i];
    var j := Find(chain, k, f, 0);
    if j != -1 {
      assert chain[j].key == k;
      ContentsUpdate(t.buckets, i, chain[j := Entry(k, v)]);
      MultisetUpdate(chain, j, Entry(k, v));
      Balance(Contents(Set(t, k, v, f).buckets), Contents(t.buckets), multiset(chain),
              multiset(chain[j := Entry(k, v)]), multiset{chain[j]}, multiset{Entry(k, v)});
    } else {
      ContentsUpdate(t.buckets, i, [Entry(k, v)] + chain);
      GrowKeepsEntries(Insert(t, i, Entry(k, v)));
      Balance(Contents(Insert(t, i, Entry(k, v)).buckets), Contents(t.buckets), multiset(chain),
              multiset([Entry(k, v)] + chain), multiset{}, multiset{Entry(k, v)});
    }
  }

  lemma Balance<T>(a: multiset<T>, b: multiset<T>, c: multiset<T>, d: multiset<T>, x: multiset<T>, y: multiset<T>)
    requires a + c == b + d && d + x == c + y
    ensures a + x == b + y && |a| + |x| == |b| + |y|
  {
    forall e ensures (a + x)[e] == (b + y)[e] {
      assert (a + c)[e] == (b + d)[e] && (d + x)[e] == (c + y)[e];
    }
    assert a + x == b + y;
    assert |a + x| == |a| + |x| && |b + y| == |b| + |y|;
  }

  lemma MultisetUpdate<T>(s: seq<T>, j: nat, x: T)
    requires j < |s|
    ensures multiset(s[j := x]) + multiset{s[j]} == multiset(s) + multiset{x}
  {
    assert s == s[..j] + [s[j]] + s[j + 1..];
    assert s[j := x] == s[..j] + [x] + s[j + 1..];
  }

  /** After every run of sets, whatever the hash: size counts the entries and the load factor
      is at most three quarters. */
  lemma {:induction false} EveryRunIsLoaded<K(!new), V>(pairs: seq<(K, V)>, f: Functions<K>)
    requires Usable(f)
    ensures Loaded(SetAll(pairs, f))
  {
    if pairs == [] {
      EmptyContents<K, V>(HASHSIZE);
      assert Init<K, V>().buckets == seq(HASHSIZE, i => []);
    } else {
      EveryRunIsLoaded(pairs[..|pairs| - 1], f);
      SetContents(SetAll(pairs[..|pairs| - 1], f), pairs[|pairs| - 1].0, pairs[|pairs| - 1].1, f);
    }
  }

  lemma {:induction false} EmptyContents<K, V>(n: nat)
    ensures Contents<K, V>(seq(n, i => [])) == multiset{}
  {
    if n > 0 {
      EmptyContents<K, V>(n - 1);
      assert seq<seq<Entry<K, V>>>(n, i => [])[..n - 1] == seq<seq<Entry<K, V>>>(n - 1, i => []);
    }
  }

  /** max_chain_length is the length of the longest chain. */
  ghost predicate LongestIs<K, V>(t: Table<K, V>) {
    && (forall i :: 0 <= i < |t.buckets| ==> |t.buckets[i]| <= t.maxChain)
    && (exists i :: 0 <= i < |t.buckets| && |t.buckets[i]| == t.maxChain)
  }

  lemma InsertLongest<K, V>(t: Table<K, V>, i: nat, e: Entry<K, V>)
    requires i < |t.buckets| && LongestIs(t)
    ensures LongestIs(Insert(t, i, e))
  {
    var r := Insert(t, i, e);
    var j :| 0 <= j < |t.buckets| && |t.buckets[j]| == t.maxChain;
    assert |r.buckets[i]| == |t.buckets[i]| + 1;
    assert |r.buckets[j]| == if i == j then |t.buckets[j]| + 1 else |t.buckets[j]|;
  }

  lemma GrowLongest<K, V>(t: Table<K, V>)
    requires LongestIs(t)
    ensures LongestIs(Grow(t))
  {
    var j :| 0 <= j < |t.buckets| && |t.buckets[j]| == t.maxChain;
    assert |Grow(t).buckets[j]| == t.maxChain;
  }

  lemma OverwriteLongest<K, V>(t: Table<K, V>, i: nat, j: nat, v: V)
    requires i < |t.buckets| && j < |t.buckets[i]| && LongestIs(t)
    ensures LongestIs(Overwrite(t, i, j, v))
  {
    var r := Overwrite(t, i, j, v);
    var l :| 0 <= l < |t.buckets| && |t.buckets[l]| == t.maxChain;
    assert |r.buckets[l]| == |t.buckets[l]|;
  }

  /** After every run of sets, whatever the hash, the recorded longest chain is the longest chain. */
  lemma {:induction false} EveryRunKnowsLongest<K(!new), V>(pairs: seq<(K, V)>, f: Functions<K>)
    requires Usable(f)
    ensures LongestIs(SetAll(pairs, f))
  {
    if pairs == [] {
      assert |Init<K, V>().buckets[0]| == 0;
    } else {
      hide LongestIs, Insert, Grow, Overwrite;
      var before, k, v := pairs[..|pairs| - 1], pairs[|pairs| - 1].0, pairs[|pairs| - 1].1;
      EveryRunKnowsLongest(before, f);
      var t := SetAll(before, f);
      var i := f.hash(k, |t.buckets|);
      var j := Find(t.buckets[i], k, f, 0);
      if j != -1 {
        OverwriteLongest(t, i, j, v);
      } else {
        InsertLongest(t, i, Entry(k, v));
        GrowLongest(Insert(t, i, Entry(k, v)));
      }
    }
  }

  // ---------------------------------------------------------------- which runs are maps

  /** An entry in a wrong bucket is in a wrong one after growth as well. */
  lemma PlacedBeforeGrow<K(!new), V>(t: Table<K, V>, f: Functions<K>, value: K -> nat)
    requires Modular(f, value) && |t.buckets| > 0 && Placed(Grow(t), f)
    ensures Placed(t, f)
  {
    var r, c := Grow(t), |t.buckets|;
    forall i, j | 0 <= i < c && 0 <= j < |t.buckets[i]| ensures f.hash(t.buckets[i][j].key, c) == i {
      var l := |t.buckets[i]| - 1 - j;
      ReverseAt(t.buckets[i], l);
      assert r.buckets[i][l] == t.buckets[i][j];
      assert f.hash(r.buckets[i][l].key, 2 * c) == i;
      ModDouble(value(t.buckets[i][j].key), c);
    }
  }

  lemma PlacedBeforeInsert<K, V>(t: Table<K, V>, i: nat, e: Entry<K, V>, f: Functions<K>)
    requires i < |t.buckets| && Placed(Insert(t, i, e), f)
    ensures Placed(t, f)
  {
    var r := Insert(t, i, e);
    forall b, l | 0 <= b < |t.buckets| && 0 <= l < |t.buckets[b]| ensures f.hash(t.buckets[b][l].key, |t.buckets|) == b {
      assert t.buckets[b][l] == r.buckets[b][if b == i then l + 1 else l];
    }
  }

  lemma PlacedBeforeOverwrite<K, V>(t: Table<K, V>, i: nat, j: nat, v: V, f: Functions<K>)
    requires i < |t.buckets| && j < |t.buckets[i]| && Placed(Overwrite(t, i, j, v), f)
    ensures Placed(t, f)
  {
    var r := Overwrite(t, i, j, v);
    forall b, l | 0 <= b < |t.buckets| && 0 <= l < |t.buckets[b]| ensures f.hash(t.buckets[b][l].key, |t.buckets|) == b {
      assert t.buckets[b][l].key == r.buckets[b][l].key;
    }
  }

  /** No set brings a misfiled entry back to its bucket. */
  lemma PlacedBeforeSet<K(!new), V>(t: Table<K, V>, k: K, v: V, f: Functions<K>, value: K -> nat)
    requires Usable(f) && Modular(f, value) && |t.buckets| > 0 && Placed(Set(t, k, v, f), f)
    ensures Placed(t, f)
  {
    hide Placed, Insert, Overwrite, Grow;
    var i := f.hash(k, |t.buckets|);
    var j := Find(t.buckets[i], k, f, 0);
    if j != -1 {
      PlacedBeforeOverwrite(t, i, j, v, f);
    } else {
      var t1 := Insert(t, i, Entry(k, v));
      if MustGrow(t1) {
        InsertCapacity(t, i, Entry(k, v));
        PlacedBeforeGrow(t1, f, value);
      }
      PlacedBeforeInsert(t, i, Entry(k, v), f);
    }
  }

  lemma InsertCapacity<K, V>(t: Table<K, V>, i: nat, e: Entry<K, V>)
    requires i < |t.buckets|
    ensures |Insert(t, i, e).buckets| == |t.buckets|
  {
  }

  lemma FoundIfStored<K(!new), V>(t: Table<K, V>, m: map<K, V>, k: K, f: Functions<K>)
    requires Usable(f) && Represents(t, m, f)
    ensures Find(t.buckets[f.hash(k, |t.buckets|)], k, f, 0) != -1 <==> k in m
  {
    var chain := t.buckets[f.hash(k, |t.buckets|)];
    if k in m {
      var j :| 0 <= j < |chain| && chain[j] == Entry(k, m[k]);
      assert f.comparer(chain[j].key, k) == 0;
    }
  }

  lemma SizeAfterSet<K, V>(m: map<K, V>, k: K, v: V)
    ensures |m[k := v]| == if k in m then |m| else |m| + 1
  {
    assert m[k := v].Keys == m.Keys + {k};
    assert |m.Keys + {k}| == if k in m then |m| else |m| + 1;
  }

  /** A set that makes a map's table grow leaves all entries placed only if no key's hash changes. */
  lemma GrowthIsSettled<K(!new), V>(t: Table<K, V>, m: map<K, V>, k: K, v: V, f: Functions<K>)
    requires Usable(f) && Represents(t, m, f) && Placed(Set(t, k, v, f), f)
    requires 4 * |m| <= 3 * |t.buckets| < 4 * |m[k := v]|
    ensures SettledFor(m[k := v], |t.buckets|, f)
  {
    var i := f.hash(k, |t.buckets|);
    FoundIfStored(t, m, k, f);
    SizeAfterSet(m, k, v);
    InsertRepresents(t, m, k, v, f);
    var t1 := Insert(t, i, Entry(k, v));
    GrowPlacedExactly(t1, f);
    HashesStay(t1, m[k := v], f);
  }

  lemma HashesStay<K(!new), V>(t: Table<K, V>, m: map<K, V>, f: Functions<K>)
    requires Represents(t, m, f)
    requires forall i, j :: 0 <= i < |t.buckets| && 0 <= j < |t.buckets[i]| ==>
      f.hash(t.buckets[i][j].key, 2 * |t.buckets|) == f.hash(t.buckets[i][j].key, |t.buckets|)
    ensures SettledFor(m, |t.buckets|, f)
  {
    forall k | k in m ensures f.hash(k, 2 * |t.buckets|) == f.hash(k, |t.buckets|) {
      var i := f.hash(k, |t.buckets|);
      var j :| 0 <= j < |t.buckets[i]| && t.buckets[i][j] == Entry(k, m[k]);
      assert t.buckets[i][j].key == k;
    }
  }

  lemma SettledOneMore<K(!new), V>(pairs: seq<(K, V)>, f: Functions<K>)
    requires InRange(f) && pairs != [] && Settled(pairs[..|pairs| - 1], f) && SettledAt(pairs, |pairs|, f)
    ensures Settled(pairs, f)
  {
    var before := pairs[..|pairs| - 1];
    forall n | 0 < n <= |pairs| ensures SettledAt(pairs, n, f) {
      if n < |pairs| {
        assert SettledAt(before, n, f);
        assert before[..n] == pairs[..n] && before[..n - 1] == pairs[..n - 1];
      }
    }
  }

  /** Entries that are all in their buckets at the end have been so at every growth. */
  lemma {:induction false} PlacedIsSettled<K(!new), V>(pairs: seq<(K, V)>, f: Functions<K>, value: K -> nat)
    requires Usable(f) && Modular(f, value) && Placed(SetAll(pairs, f), f)
    ensures Settled(pairs, f)
  {
    if pairs != [] {
      var before, k, v := pairs[..|pairs| - 1], pairs[|pairs| - 1].0, pairs[|pairs| - 1].1;
      var t := SetAll(before, f);
      PlacedBeforeSet(t, k, v, f, value);
      PlacedIsSettled(before, f, value);
      SettledRunIsMap(before, f);
      EveryRunIsLoaded(before, f);
      assert pairs[..|pairs|] == pairs;
      if 4 * |MapAll(pairs)| > 3 * |t.buckets| {
        GrowthIsSettled(t, MapAll(before), k, v, f);
      }
      SettledOneMore(pairs, f);
    }
  }

  /** The table is the map of latest values after a run of sets if and only if no growth of the run
      came when a stored key's hash changed with the capacity. */
  lemma RunIsMapExactly<K(!new), V>(pairs: seq<(K, V)>, f: Functions<K>, value: K -> nat)
    requires Usable(f) && Modular(f, value)
    ensures Represents(SetAll(pairs, f), MapAll(pairs), f) <==> Settled(pairs, f)
  {
    if Settled(pairs, f) {
      SettledRunIsMap(pairs, f);
    }
    if Represents(SetAll(pairs, f), MapAll(pairs), f) {
      PlacedIsSettled(pairs, f, value);
    }
  }

  lemma MapAllSnoc<K, V>(pairs: seq<(K, V)>, k: K, v: V)
    ensures MapAll(pairs + [(k, v)]) == MapAll(pairs)[k := v]
  {
    assert (pairs + [(k, v)])[..|pairs|] == pairs;
  }

  /** The 97th distinct key makes the table grow: of all keys set so far, those whose number falls in
      the upper half of the new buckets can no longer be got. */
  lemma NinetySeventhKey<K(!new), V>(pairs: seq<(K, V)>, x: K, v: V, k: K, f: Functions<K>, value: K -> nat)
    requires Usable(f) && Modular(f, value)
    requires |MapAll(pairs)| == 96 && x !in MapAll(pairs)
    ensures var m := MapAll(pairs + [(x, v)]);
      k in m ==> Get(SetAll(pairs + [(x, v)], f), k, f) == if value(k) % 256 < 128 then Some(m[k]) else None
  {
    var m := MapAll(pairs);
    FewKeysAreAMap(pairs, f);
    var t := SetAll(pairs, f);
    var i := f.hash(x, |t.buckets|);
    FoundIfStored(t, m, x, f);
    InsertRepresents(t, m, x, v, f);
    var t1 := Insert(t, i, Entry(x, v));
    MapAllSnoc(pairs, x, v);
    assert (pairs + [(x, v)])[..|pairs|] == pairs;
    assert MustGrow(t1) && SetAll(pairs + [(x, v)], f) == Grow(t1);
    if k in m[x := v] {
      hide Set, SetAll, Get, Represents;
      GrowthLosesExactly(t1, m[x := v], k, f, value);
    }
  }

  /** Natural numbers as keys, hashed to their remainders. */
  const REMAINDERS: Functions<nat> :=
    Functions((k: nat, c: nat) => if c == 0 then 0 else k % c, (a: nat, b: nat) => a - b)

  function UpTo(n: nat): (pairs: seq<(nat, nat)>)
    ensures |pairs| == n
  {
    if n == 0 then [] else UpTo(n - 1) + [(n - 1, n - 1)]
  }

  lemma {:induction false} UpToKeys(n: nat)
    ensures forall k: nat :: k in MapAll(UpTo(n)) <==> k < n
    ensures |MapAll(UpTo(n))| == n
  {
    if n > 0 {
      UpToKeys(n - 1);
      MapAllSnoc(UpTo(n - 1), n - 1, n - 1);
      SizeAfterSet(MapAll(UpTo(n - 1)), n - 1, n - 1);
    }
  }

  /** After the keys 0 to 95 and then 128, the key that was set last is missing. */
  lemma LastSetIsLost()
    ensures Usable(REMAINDERS)
    ensures Get(SetAll(UpTo(96) + [(128, 7)], REMAINDERS), 128, REMAINDERS) == None
    ensures MapAll(UpTo(96) + [(128, 7)])[128] == 7
  {
    UpToKeys(96);
    assert Usable(REMAINDERS) && Modular(REMAINDERS, (k: nat) => k);
    MapAllSnoc(UpTo(96), 128, 7);
    NinetySeventhKey(UpTo(96), 128, 7, 128, REMAINDERS, (k: nat) => k);
  }
}
