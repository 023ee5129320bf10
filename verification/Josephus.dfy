/** The list process that the token ring of src/34.c is meant to implement: remove one
    position of a list, then repeatedly the position step - 1 places further round what is
    left.  Its outcome is a permutation of the list with a classical closed form for the
    element removed last. */
module Josephus {
  import opened Quotients

  function Remove<T>(s: seq<T>, k: nat): (r: seq<T>)
    requires k < |s|
    ensures |r| == |s| - 1
    ensures forall j {:trigger r[j]} :: 0 <= j < |r| ==> r[j] == if j < k then s[j] else s[j + 1]
  {
    s[..k] + s[k + 1..]
  }

  /** The position after j on a circle of m places. */
  function Next(j: nat, m: nat): (r: nat)
    requires j < m
    ensures r < m
  {
    if j + 1 == m then 0 else j + 1
  }

  /** The order in which the elements leave when position pos leaves first. */
  function Order<T>(alive: seq<T>, pos: nat, step: nat): (r: seq<T>)
    requires step >= 1
    requires alive != [] ==> pos < |alive|
    ensures |r| == |alive|
    decreases |alive|
  {
    if alive == [] then [] else
      var rest := Remove(alive, pos);
      [alive[pos]] + Order(rest, Onwards(pos, step, |rest|), step)
  }

  /** step - 1 places further round the m that are left. */
  function Onwards(pos: nat, step: nat, m: nat): (r: nat)
    requires step >= 1
    ensures m > 0 ==> r < m
  {
    if m == 0 then 0 else (pos + step - 1) % m
  }

  lemma OrderHead<T>(alive: seq<T>, pos: nat, step: nat)
    requires step >= 1 && pos < |alive| && |alive| >= 2
    ensures Order(alive, pos, step)
         == [alive[pos]] + Order(Remove(alive, pos), Onwards(pos, step, |alive| - 1), step)
  {
    hide Remove, Onwards;
  }

  lemma RemoveMultiset<T>(s: seq<T>, k: nat)
    requires k < |s|
    ensures multiset([s[k]] + Remove(s, k)) == multiset(s)
  {
    assert s == s[..k] + [s[k]] + s[k + 1..];
  }

  /** Everybody leaves exactly once. */
  lemma {:induction false} OrderIsPermutation<T>(alive: seq<T>, pos: nat, step: nat)
    requires step >= 1
    requires alive != [] ==> pos < |alive|
    ensures multiset(Order(alive, pos, step)) == multiset(alive)
    decreases |alive|
  {
    if alive != [] {
      var rest := Remove(alive, pos);
      OrderIsPermutation(rest, if rest == [] then 0 else (pos + step - 1) % |rest|, step);
      RemoveMultiset(alive, pos);
    }
  }

  /** The closed form: f(1) = 0 and f(m) = (f(m - 1) + step) mod m. */
  function Survivor(m: nat, step: nat): (r: nat)
    requires m >= 1
    ensures r < m
  {
    if m == 1 then 0 else (Survivor(m - 1, step) + step) % m
  }

  lemma ModAdd(a: int, b: int, m: nat)
    requires m >= 1
    ensures (a % m + b) % m == (a + b) % m
  {
    var s := a % m + b;
    assert a == (a / m) * m + a % m;
    assert s == (s / m) * m + s % m;
    assert a + b == (a / m + s / m) * m + s % m;
    RemainderIs(a + b, m, a / m + s / m, s % m);
  }

  /** Taking out position p moves what is left x places after the gap one place down. */
  lemma RemoveAcross<T>(alive: seq<T>, p: nat, x: nat)
    requires |alive| >= 2
    requires p < |alive|
    requires x < |alive| - 1
    ensures Remove(alive, p)[(p + x) % (|alive| - 1)] == alive[(p + 1 + x) % |alive|]
  {
    var m := |alive|;
    if p + x < m - 1 {
      RemainderIs(p + x, m - 1, 0, p + x);
      RemainderIs(p + 1 + x, m, 0, p + 1 + x);
    } else {
      RemainderIs(p + x, m - 1, 1, p + x - (m - 1));
      RemainderIs(p + 1 + x, m, 1, p + 1 + x - m);
    }
  }

  /** The element that leaves last, for every start position. */
  lemma {:induction false} LastToLeave<T>(alive: seq<T>, pos: nat, step: nat)
    requires step >= 1
    requires pos < |alive|
    ensures Order(alive, pos, step)[|alive| - 1]
         == alive[(pos + 1 - step + Survivor(|alive|, step)) % |alive|]
    decreases |alive|
  {
    var m := |alive|;
    if m >= 2 {
      hide Order, Survivor, Remove, Onwards;
      var rest := Remove(alive, pos);
      var pos' := Onwards(pos, step, m - 1);
      LastToLeave(rest, pos', step);
      OrderHead(alive, pos, step);
      assert Order(alive, pos, step)[m - 1] == Order(rest, pos', step)[m - 2];
      RemoveAcross(alive, pos, Survivor(m - 1, step));
      SurvivorStep(m, pos, step);
    } else {
      SurvivorOfOne(step);
      RemainderIs(pos + 1 - step, 1, pos + 1 - step, 0);
    }
  }

  lemma SurvivorOfOne(step: nat)
    ensures Survivor(1, step) == 0
  {
  }

  /** Counted from the gap, the survivor of the shorter list is that of the longer one. */
  lemma SurvivorStep(m: nat, pos: nat, step: nat)
    requires m >= 2 && step >= 1
    ensures var x := Survivor(m - 1, step);
      && (Onwards(pos, step, m - 1) + 1 - step + x) % (m - 1) == (pos + x) % (m - 1)
      && (pos + 1 - step + Survivor(m, step)) % m == (pos + 1 + x) % m
  {
    var x := Survivor(m - 1, step);
    ModAdd(pos + step - 1, 1 - step + x, m - 1);
    ModAdd(x + step, pos + 1 - step, m);
  }

  function Iota(n: nat): (r: seq<int>)
    ensures |r| == n
    ensures forall j :: 0 <= j < n ==> r[j] == j
  {
    seq(n, j => j)
  }

  /** With the start of src/34.c, position step of 0..n-1, the last to leave is (1 + f(n)) mod n. */
  lemma LastOfRing(n: nat, step: nat)
    requires 1 < step < n
    ensures Order(Iota(n), step, step)[n - 1] == (1 + Survivor(n, step)) % n
  {
    LastToLeave(Iota(n), step, step);
  }
}
