/** The token ring of src/34.c as a transition system.  Any schedule of processes is a run:
    a process whose next system call cannot make progress stutters, which is what the
    O_NONBLOCK read loop of the source does. */
module TokenRing {
  import opened Quotients
  import opened Josephus

  /** message_t; num_alive is the length of alive. */
  datatype Msg = Msg(count: int, alive: seq<int>)

  /** Where a child is in its loop: about to read, about to write what it read, about to
      open a new output after having written, gone, or ended by an error exit. */
  datatype Pc = Reading | Holding(msg: Msg) | Switching(target: nat) | Exited | Failed

  /** out[i] is the process whose FIFO is child i's fd_out; removed and received are history. */
  datatype Ring = Ring(out: seq<int>, inbox: seq<seq<Msg>>, pc: seq<Pc>, removed: seq<int>, received: nat)
  {
    predicate Shape(n: nat) {
      |out| == n && |inbox| == n && |pc| == n && forall i :: 0 <= i < n ==> 0 <= out[i] < n
    }
  }

  // ---------------------------------------------------------------- what a child computes

  /** The list without idx. */
  function Compact(alive: seq<int>, idx: int): (r: seq<int>)
    ensures |r| <= |alive|
    ensures forall x :: x in r <==> x in alive && x != idx
  {
    if alive == [] then []
    else if alive[|alive| - 1] != idx
    then Compact(alive[..|alive| - 1], idx) + [alive[|alive| - 1]]
    else Compact(alive[..|alive| - 1], idx)
  }

  /** The message an eliminated child sends on. */
  function EliminatedMsg(m: Msg, idx: int, step: int): (r: Msg) {
    var rest := Compact(m.alive, idx);
    Msg(if |rest| != 1 then step - 1 else 0, rest)
  }

  /** First position of idx in alive, from position i on. */
  function Position(alive: seq<int>, idx: int, i: nat): (r: int)
    requires i <= |alive|
    ensures r == -1 || i <= r < |alive|
    ensures r == -1 <==> idx !in alive[i..]
    ensures r != -1 ==> alive[r] == idx && idx !in alive[i..r]
    decreases |alive| - i
  {
    if i == |alive| then -1 else if alive[i] == idx then i else Position(alive, idx, i + 1)
  }

  /** The process two places after idx in alive, or -1 when idx is not in alive. */
  function SwitchTarget(alive: seq<int>, idx: int): (r: int) {
    var i := Position(alive, idx, 0);
    if i == -1 then -1 else alive[(i + 2) % |alive|]
  }

  /** Having sent a zero count while more than two are alive, a child looks up its new output. */
  function AfterZero(alive: seq<int>, idx: int, n: nat): (r: Pc) {
    var target := SwitchTarget(alive, idx);
    if 0 <= target < n then Switching(target) else Failed
  }

  function Dead(p: Pc): bool { p.Exited? || p.Failed? }

  // ---------------------------------------------------------------- the transition system

  /** A write into the FIFO of a process that is gone has no reader and is lost. */
  function Deliver(s: Ring, to: int, m: Msg): (r: Ring)
    requires 0 <= to < |s.inbox| == |s.pc|
  {
    if Dead(s.pc[to]) then s else s.(inbox := s.inbox[to := s.inbox[to] + [m]])
  }

  function Read(s: Ring, i: nat): (r: Ring)
    requires i < |s.pc| == |s.inbox|
  {
    if s.inbox[i] == [] then s
    else s.(inbox := s.inbox[i := s.inbox[i][1..]],
            pc := s.pc[i := Holding(s.inbox[i][0])],
            received := s.received + 1)
  }

  function Write(s: Ring, i: nat, m: Msg, step: int): (r: Ring)
    requires s.Shape(|s.pc|) && i < |s.pc|
  {
    if m.count == 0 then
      var d := Deliver(s, s.out[i], EliminatedMsg(m, i, step));
      d.(pc := d.pc[i := Exited], removed := d.removed + [i])
    else if Dead(s.pc[s.out[i]]) then
      s.(pc := s.pc[i := Failed])
    else
      var m' := m.(count := m.count - 1);
      var d := Deliver(s, s.out[i], m');
      d.(pc := d.pc[i := if m'.count == 0 && |m.alive| > 2 then AfterZero(m.alive, i, |s.pc|) else Reading])
  }

  /** Opening a FIFO for writing blocks while nobody has it open for reading. */
  function Switch(s: Ring, i: nat, target: nat): (r: Ring)
    requires s.Shape(|s.pc|) && i < |s.pc|
  {
    if target >= |s.pc| || Dead(s.pc[target]) then s
    else s.(out := s.out[i := target], pc := s.pc[i := Reading])
  }

  function Step(s: Ring, i: nat, step: int): (r: Ring)
    requires s.Shape(|s.pc|)
    ensures r.Shape(|s.pc|)
  {
    if i >= |s.pc| then s else
      match s.pc[i]
      case Reading => Read(s, i)
      case Holding(m) => Write(s, i, m, step)
      case Switching(target) => Switch(s, i, target)
      case Exited => s
      case Failed => s
  }

  /** All FIFOs open, child i writing to child i + 1, the first message in child 0's FIFO. */
  function Start(n: nat, step: nat): (r: Ring)
    requires n >= 1
    ensures r.Shape(n)
  {
    Ring(seq(n, i requires 0 <= i < n => Next(i, n)),
         seq(n, i => if i == 0 then [Msg(step, Iota(n))] else []),
         seq(n, i => Reading), [], 0)
  }

  function Exec(n: nat, step: nat, sched: seq<nat>): (r: Ring)
    requires n >= 1
    ensures r.Shape(n)
  {
    if sched == [] then Start(n, step)
    else Step(Exec(n, step, sched[..|sched| - 1]), sched[|sched| - 1], step)
  }

  /** How many entries of the schedule changed something. */
  function Effective(n: nat, step: nat, sched: seq<nat>): (r: nat)
    requires n >= 1
  {
    if sched == [] then 0 else
      var before := Exec(n, step, sched[..|sched| - 1]);
      Effective(n, step, sched[..|sched| - 1])
      + if Step(before, sched[|sched| - 1], step) == before then 0 else 1
  }

  // ---------------------------------------------------------------- the invariant

  /** The one token: at position k of its own list, unread in a FIFO or held by its reader;
      or gone, after the last child has forwarded it to a process that is no more. */
  datatype Token = Gone | Token(k: nat, msg: Msg, held: bool)

  ghost predicate Increasing(s: seq<int>) {
    forall i, j :: 0 <= i < j < |s| ==> s[i] < s[j]
  }

  /** The output a live child will have by the time it next writes. */
  function Link(s: Ring, i: int): (r: int)
    requires s.Shape(|s.pc|) && 0 <= i < |s.pc|
  {
    if s.pc[i].Switching? then s.pc[i].target else s.out[i]
  }

  /** The predecessor of a process about to be eliminated already looks past it. */
  predicate Doomed(t: Token, j: nat)
    requires t.Token? && j < |t.msg.alive|
  {
    t.msg.count == 0 && |t.msg.alive| > 2 && Next(j, |t.msg.alive|) == t.k
  }

  /** The list holds exactly the processes that have not exited. */
  ghost predicate Live(s: Ring, a: seq<int>) {
    && (forall j :: 0 <= j < |a| ==> 0 <= a[j] < |s.pc| && !s.pc[a[j]].Exited?)
    && (forall i :: 0 <= i < |s.pc| && !s.pc[i].Exited? ==> i in a)
  }

  predicate LinkOk(s: Ring, t: Token, j: nat)
    requires s.Shape(|s.pc|) && t.Token? && j < |t.msg.alive| && 0 <= t.msg.alive[j] < |s.pc|
  {
    var a := t.msg.alive;
    var m := |a|;
    Link(s, a[j]) == if Doomed(t, j) then a[Next(Next(j, m), m)] else a[Next(j, m)]
  }

  /** Every live child's output leads to its successor in the list, the doomed one's
      predecessor excepted; once a single child is left its output leads to nobody. */
  ghost predicate Links(s: Ring, t: Token)
    requires s.Shape(|s.pc|) && t.Token? && Live(s, t.msg.alive) && t.k < |t.msg.alive|
  {
    var a := t.msg.alive;
    && (|a| >= 2 ==> forall j :: 0 <= j < |a| ==> LinkOk(s, t, j))
    && (|a| == 2 && t.msg.count == 0 ==> !s.pc[a[1 - t.k]].Switching?)
    && (|a| == 1 ==> s.pc[s.out[a[0]]].Exited? && !s.pc[a[0]].Switching?)
  }

  /** Exactly one message is in a FIFO or held. */
  ghost predicate Alone(s: Ring, t: Token)
    requires s.Shape(|s.pc|) && t.Token? && t.k < |t.msg.alive|
  {
    var h := t.msg.alive[t.k];
    && (forall i :: 0 <= i < |s.pc| ==> (s.pc[i].Holding? <==> i == h && t.held))
    && (0 <= h < |s.pc| && t.held ==> s.pc[h].msg == t.msg)
    && (forall i :: 0 <= i < |s.pc| ==> s.inbox[i] == if i == h && !t.held then [t.msg] else [])
  }

  ghost predicate Inv(s: Ring, t: Token, n: nat, step: nat) {
    && s.Shape(n)
    && (forall i :: 0 <= i < n ==> !s.pc[i].Failed?)
    && match t
       case Gone => forall i :: 0 <= i < n ==> s.pc[i].Exited? && s.inbox[i] == []
       case Token(k, msg, _) =>
         && k < |msg.alive| <= n
         && Increasing(msg.alive)
         && Live(s, msg.alive)
         && 0 <= msg.count <= step
         && (|msg.alive| == 1 ==> msg.count == 0)
         && Alone(s, t)
         && Links(s, t)
  }

  // ---------------------------------------------------------------- compaction and switching

  lemma {:induction false} CompactAbsent(alive: seq<int>, idx: int)
    requires idx !in alive
    ensures Compact(alive, idx) == alive
  {
    if alive != [] {
      CompactAbsent(alive[..|alive| - 1], idx);
      assert alive == alive[..|alive| - 1] + [alive[|alive| - 1]];
    }
  }

  /** On a list without repetitions, compaction is the removal of one position. */
  lemma {:induction false} CompactRemoves(alive: seq<int>, k: nat)
    requires k < |alive|
    requires Increasing(alive)
    ensures Compact(alive, alive[k]) == Remove(alive, k)
  {
    var last := |alive| - 1;
    if k == last {
      assert alive[k] !in alive[..last];
      CompactAbsent(alive[..last], alive[k]);
    } else {
      CompactRemoves(alive[..last], k);
      assert Remove(alive, k) == Remove(alive[..last], k) + [alive[last]];
    }
  }

  lemma SwitchTargetIs(alive: seq<int>, k: nat)
    requires k < |alive| && |alive| >= 2
    requires Increasing(alive)
    ensures SwitchTarget(alive, alive[k]) == alive[Next(Next(k, |alive|), |alive|)]
  {
    var i := Position(alive, alive[k], 0);
    assert alive[k] in alive[0..];
    assert i == k;
    var m := |alive|;
    if k + 2 < m {
      RemainderIs(k + 2, m, 0, k + 2);
    } else {
      RemainderIs(k + 2, m, 1, k + 2 - m);
    }
  }

  // ---------------------------------------------------------------- one lemma per action

  lemma StartInv(n: nat, step: nat) returns (t: Token)
    requires 1 < step < n
    ensures Inv(Start(n, step), t, n, step)
    ensures t == Token(0, Msg(step, Iota(n)), false)
  {
    t := Token(0, Msg(step, Iota(n)), false);
    var s, a := Start(n, step), Iota(n);
    forall i | 0 <= i < n ensures i in a {
      assert a[i] == i;
    }
  }

  /** Links of unchanged children are kept by any action that leaves the list alone. */
  lemma LinksFrame(s: Ring, s': Ring, t: Token, t': Token)
    requires s.Shape(|s.pc|) && s'.Shape(|s.pc|) && t.Token? && t'.Token?
    requires t.msg.alive == t'.msg.alive && t.k == t'.k < |t.msg.alive| && t.msg.count == t'.msg.count
    requires Live(s, t.msg.alive) && Live(s', t.msg.alive) && Links(s, t)
    requires forall i :: i in t.msg.alive ==> Link(s', i) == Link(s, i) && (s'.pc[i].Switching? ==> s.pc[i].Switching?)
    requires |t.msg.alive| == 1 ==> s'.out == s.out
    ensures Links(s', t')
  {
    forall j | 0 <= j < |t.msg.alive| && |t.msg.alive| >= 2 ensures LinkOk(s', t', j) {
      assert LinkOk(s, t, j);
    }
  }

  lemma ReadInv(s: Ring, t: Token, i: nat, n: nat, step: nat) returns (t': Token)
    requires Inv(s, t, n, step) && i < n && s.pc[i].Reading? && s.inbox[i] != []
    ensures t.Token? && !t.held && t.msg.alive[t.k] == i
    ensures t' == t.(held := true)
    ensures Inv(Read(s, i), t', n, step)
  {
    t' := t.(held := true);
    var s' := Read(s, i);
    assert Live(s', t.msg.alive);
    LinksFrame(s, s', t, t');
  }

  lemma LinkStaysInside(s: Ring, t: Token, i: int)
    requires s.Shape(|s.pc|) && t.Token? && t.k < |t.msg.alive| && Live(s, t.msg.alive) && Links(s, t)
    requires i in t.msg.alive
    requires |t.msg.alive| >= 2 || s.pc[i].Switching?
    ensures Link(s, i) in t.msg.alive
  {
    var a := t.msg.alive;
    var j :| 0 <= j < |a| && a[j] == i;
    if |a| >= 2 {
      assert LinkOk(s, t, j);
    }
  }

  lemma SwitchInv(s: Ring, t: Token, i: nat, n: nat, step: nat)
    requires Inv(s, t, n, step) && i < n && s.pc[i].Switching?
    ensures Inv(Step(s, i, step), t, n, step)
    ensures t.Token?
    ensures Step(s, i, step) == s.(out := s.out[i := s.pc[i].target], pc := s.pc[i := Reading])
  {
    assert t.Token?;
    LinkStaysInside(s, t, i);
    var s' := s.(out := s.out[i := s.pc[i].target], pc := s.pc[i := Reading]);
    assert Step(s, i, step) == s';
    assert Live(s', t.msg.alive);
    assert Alone(s', t);
    LinksFrame(s, s', t, t);
  }

  function AfterForward(t: Token): (r: Token)
    requires t.Token? && t.k < |t.msg.alive|
  {
    Token(Next(t.k, |t.msg.alive|), t.msg.(count := t.msg.count - 1), false)
  }

  lemma ForwardStep(s: Ring, t: Token, i: nat, n: nat, step: nat) returns (pc: Pc)
    requires Inv(s, t, n, step) && i < n && s.pc[i].Holding? && s.pc[i].msg.count != 0
    ensures t.Token? && t.held && t.msg.alive[t.k] == i && |t.msg.alive| >= 2
    ensures var t' := AfterForward(t); var to := t'.msg.alive[t'.k];
      && 0 <= to < n && to != i
      && pc == (if t'.msg.count == 0 && |t.msg.alive| > 2
                then Switching(t.msg.alive[Next(t'.k, |t.msg.alive|)]) else Reading)
      && Step(s, i, step) == s.(inbox := s.inbox[to := [t'.msg]], pc := s.pc[i := pc])
  {
    assert t.Token? && t.held && t.msg.alive[t.k] == i;
    var a, m := t.msg.alive, |t.msg.alive|;
    var t' := AfterForward(t);
    assert LinkOk(s, t, t.k);
    var to := s.out[i];
    assert to == a[t'.k] && to != i;
    SwitchTargetIs(a, t.k);
    pc := if t'.msg.count == 0 && m > 2 then Switching(a[Next(t'.k, m)]) else Reading;
    assert s.inbox[to] + [t'.msg] == [t'.msg];
  }

  /** Passing the token on with a count that has not run out. */
  lemma ForwardInv(s: Ring, t: Token, i: nat, n: nat, step: nat) returns (t': Token)
    requires Inv(s, t, n, step) && i < n && s.pc[i].Holding? && s.pc[i].msg.count != 0
    ensures t.Token? && t.held && t.msg.alive[t.k] == i
    ensures t' == AfterForward(t)
    ensures Inv(Step(s, i, step), t', n, step)
    ensures var pc' := Step(s, i, step).pc;
      && pc' == s.pc[i := pc'[i]] && !pc'[i].Holding?
      && (pc'[i].Switching? <==> t'.msg.count == 0 && |t.msg.alive| > 2)
    ensures Step(s, i, step).removed == s.removed && Step(s, i, step).received == s.received
  {
    var pc := ForwardStep(s, t, i, n, step);
    t' := AfterForward(t);
    var s' := Step(s, i, step);
    assert Live(s', t.msg.alive);
    RestAlone(s, s', t, t', pc);
    ForwardLinks(s, s', t, t', pc);
  }

  lemma ForwardLinks(s: Ring, s': Ring, t: Token, t': Token, pc: Pc)
    requires s.Shape(|s.pc|) && s'.Shape(|s.pc|) && t.Token? && t'.Token?
    requires t.k < |t.msg.alive| && |t.msg.alive| >= 2 && Increasing(t.msg.alive) && t.msg.count != 0
    requires t'.msg == t.msg.(count := t.msg.count - 1) && t'.k == Next(t.k, |t.msg.alive|)
    requires Live(s, t.msg.alive) && Live(s', t.msg.alive) && Links(s, t)
    requires s.pc[t.msg.alive[t.k]].Holding?
    requires s'.out == s.out && s'.pc == s.pc[t.msg.alive[t.k] := pc]
    requires var a, m := t.msg.alive, |t.msg.alive|;
      pc == if t'.msg.count == 0 && m > 2 then Switching(a[Next(Next(t.k, m), m)]) else Reading
    ensures Links(s', t')
  {
    var a, m := t.msg.alive, |t.msg.alive|;
    forall j | 0 <= j < m ensures LinkOk(s', t', j) {
      assert LinkOk(s, t, j);
      if j != t.k {
        assert a[j] != a[t.k];
      }
    }
  }

  /** The last child leaves and the token with it. */
  lemma LastInv(s: Ring, t: Token, i: nat, n: nat, step: nat)
    requires Inv(s, t, n, step) && i < n && s.pc[i].Holding? && s.pc[i].msg.count == 0
    requires t.Token? && |t.msg.alive| == 1
    ensures Inv(Step(s, i, step), Gone, n, step)
    ensures Step(s, i, step).removed == s.removed + [i]
  {
    var a := t.msg.alive;
    assert i == a[0];
    forall x | 0 <= x < n ensures Step(s, i, step).pc[x].Exited? {
      if x != i {
        assert x !in a;
      }
    }
  }

  lemma SuccessorAfterRemoval(a: seq<int>, k: nat, j: nat)
    requires |a| >= 3 && k < |a| && j < |a| - 1
    ensures var m := |a|; var o := if j < k then j else j + 1;
      Remove(a, k)[Next(j, m - 1)] == if Next(o, m) == k then a[Next(k, m)] else a[Next(o, m)]
  {
  }

  function AfterElimination(t: Token, step: nat): (r: Token)
    requires t.Token? && t.k < |t.msg.alive|
    requires step >= 1
  {
    var m := |t.msg.alive| - 1;
    Token(if t.k == m then 0 else t.k, Msg(if m == 1 then 0 else step - 1, Remove(t.msg.alive, t.k)), false)
  }

  lemma EliminateStep(s: Ring, t: Token, i: nat, n: nat, step: nat)
    requires 1 < step
    requires Inv(s, t, n, step) && i < n && s.pc[i].Holding? && s.pc[i].msg.count == 0
    requires t.Token? && |t.msg.alive| >= 2
    ensures t.held && t.msg.alive[t.k] == i
    ensures var t' := AfterElimination(t, step); var to := t'.msg.alive[t'.k];
      && 0 <= to < n && to != i
      && Step(s, i, step)
      == s.(inbox := s.inbox[to := [t'.msg]], pc := s.pc[i := Exited], removed := s.removed + [i])
  {
    var a, m := t.msg.alive, |t.msg.alive|;
    assert t.held && a[t.k] == i;
    CompactRemoves(a, t.k);
    var t' := AfterElimination(t, step);
    assert EliminatedMsg(s.pc[i].msg, i, step) == t'.msg;
    assert LinkOk(s, t, t.k);
    var to := s.out[i];
    assert to == a[Next(t.k, m)] == t'.msg.alive[t'.k] && to != i;
    assert s.inbox[to] + [t'.msg] == [t'.msg];
  }

  /** A child whose count has run out takes itself off the list; everybody's output fits the shorter list. */
  lemma EliminateInv(s: Ring, t: Token, i: nat, n: nat, step: nat) returns (t': Token)
    requires 1 < step
    requires Inv(s, t, n, step) && i < n && s.pc[i].Holding? && s.pc[i].msg.count == 0
    requires t.Token? && |t.msg.alive| >= 2
    ensures t.held && t.msg.alive[t.k] == i
    ensures t' == AfterElimination(t, step)
    ensures Inv(Step(s, i, step), t', n, step)
    ensures Step(s, i, step).pc == s.pc[i := Exited]
    ensures Step(s, i, step).removed == s.removed + [i] && Step(s, i, step).received == s.received
  {
    t' := AfterElimination(t, step);
    EliminateStep(s, t, i, n, step);
    var s' := Step(s, i, step);
    RestIsLive(s, s', t.msg.alive, t.k);
    RestAlone(s, s', t, t', Exited);
    RestLinks(s, s', t, t');
  }

  lemma RestAlone(s: Ring, s': Ring, t: Token, t': Token, pc: Pc)
    requires s.Shape(|s.pc|) && s'.Shape(|s.pc|) && t.Token? && t'.Token? && t.held && !t'.held
    requires t.k < |t.msg.alive| && t'.k < |t'.msg.alive| && Alone(s, t)
    requires var i, to := t.msg.alive[t.k], t'.msg.alive[t'.k];
      && 0 <= i < |s.pc| && 0 <= to < |s.pc|
      && s'.inbox == s.inbox[to := [t'.msg]]
      && s'.pc == s.pc[i := pc] && !pc.Holding?
    ensures Alone(s', t')
  {
  }

  lemma RestIsLive(s: Ring, s': Ring, a: seq<int>, k: nat)
    requires |s.pc| == |s'.pc| && k < |a| && Increasing(a) && Live(s, a)
    requires s'.pc == s.pc[a[k] := Exited]
    ensures Live(s', Remove(a, k))
    ensures Increasing(Remove(a, k))
  {
    var rest := Remove(a, k);
    forall x | 0 <= x < |s'.pc| && !s'.pc[x].Exited? ensures x in rest {
      assert x in a;
      var j :| 0 <= j < |a| && a[j] == x;
      assert j != k;
      assert rest[if j < k then j else j - 1] == x;
    }
  }

  lemma RestLinks(s: Ring, s': Ring, t: Token, t': Token)
    requires s.Shape(|s.pc|) && s'.Shape(|s.pc|) && t.Token? && t'.Token?
    requires t.k < |t.msg.alive| && |t.msg.alive| >= 2 && t.msg.count == 0 && Increasing(t.msg.alive)
    requires Live(s, t.msg.alive) && Links(s, t)
    requires t'.msg.alive == Remove(t.msg.alive, t.k) && t'.k < |t'.msg.alive|
    requires t'.msg.count != 0 || |t'.msg.alive| == 1
    requires s'.out == s.out && s'.pc == s.pc[t.msg.alive[t.k] := Exited]
    requires Live(s', t'.msg.alive)
    ensures Links(s', t')
  {
    var a, m := t.msg.alive, |t.msg.alive|;
    if m >= 3 {
      forall j | 0 <= j < m - 1 ensures LinkOk(s', t', j) {
        RestLink(s, s', t, t', j);
      }
    } else {
      assert LinkOk(s, t, 1 - t.k);
      assert t'.msg.alive[0] == a[1 - t.k] && a[0] != a[1];
    }
  }

  lemma RestLink(s: Ring, s': Ring, t: Token, t': Token, j: nat)
    requires s.Shape(|s.pc|) && s'.Shape(|s.pc|) && t.Token? && t'.Token?
    requires t.k < |t.msg.alive| && |t.msg.alive| >= 3 && t.msg.count == 0 && Increasing(t.msg.alive)
    requires Live(s, t.msg.alive) && Links(s, t)
    requires t'.msg.alive == Remove(t.msg.alive, t.k) && t'.msg.count != 0
    requires s'.out == s.out && s'.pc == s.pc[t.msg.alive[t.k] := Exited]
    requires j < |t'.msg.alive| && 0 <= t'.msg.alive[j] < |s.pc|
    ensures LinkOk(s', t', j)
  {
    var a := t.msg.alive;
    var o := if j < t.k then j else j + 1;
    assert LinkOk(s, t, o);
    assert t'.msg.alive[j] == a[o] && a[o] != a[t.k];
    SuccessorAfterRemoval(a, t.k, j);
  }

  // ---------------------------------------------------------------- history of a run

  /** What the list process still has to do when the token is t. */
  function Rest(t: Token, step: nat): (r: seq<int>)
    requires step >= 1 && TokenOk(t)
  {
    match t
    case Gone => []
    case Token(k, msg, _) => Order(msg.alive, (k + msg.count) % |msg.alive|, step)
  }

  /** Receptions to come, a held token counting as received. */
  function ReceptionsLeft(t: Token, step: nat): (r: int) {
    match t
    case Gone => 0
    case Token(_, msg, held) =>
      (if |msg.alive| == 1 then 1 else msg.count + 2 + (|msg.alive| - 2) * step) - if held then 1 else 0
  }

  function Switchers(pc: seq<Pc>): (r: nat) {
    if pc == [] then 0 else Switchers(pc[..|pc| - 1]) + if pc[|pc| - 1].Switching? then 1 else 0
  }

  /** Output switches not yet done: those under way and those still to be decided. */
  function SwitchesLeft(pc: seq<Pc>, t: Token): (r: int) {
    Switchers(pc) + if t.Token? && |t.msg.alive| > 2
                    then |t.msg.alive| - 2 - (if t.msg.count == 0 then 1 else 0) else 0
  }

  /** Every reception is a read and a write; a held token has its read behind it. */
  function StepsLeft(pc: seq<Pc>, t: Token, step: nat): (r: int) {
    2 * ReceptionsLeft(t, step) + (if t.Token? && t.held then 1 else 0) + SwitchesLeft(pc, t)
  }

  lemma {:induction false} SwitchersUpdate(pc: seq<Pc>, i: nat, p: Pc)
    requires i < |pc|
    ensures Switchers(pc[i := p])
         == Switchers(pc) - (if pc[i].Switching? then 1 else 0) + if p.Switching? then 1 else 0
  {
    var last := |pc| - 1;
    if i == last {
      assert pc[i := p][..last] == pc[..last];
    } else {
      SwitchersUpdate(pc[..last], i, p);
      assert pc[i := p][..last] == pc[..last][i := p];
    }
  }

  lemma {:induction false} NoSwitchers(pc: seq<Pc>)
    requires forall i :: 0 <= i < |pc| ==> !pc[i].Switching?
    ensures Switchers(pc) == 0
  {
    if pc != [] {
      NoSwitchers(pc[..|pc| - 1]);
    }
  }

  predicate TokenOk(t: Token) {
    t.Token? ==> t.k < |t.msg.alive| && t.msg.count >= 0
  }

  /** What has been done and what is left add up to the list process. */
  ghost predicate Accounts(s: Ring, t: Token, n: nat, step: nat)
    requires 1 < step < n
  {
    && TokenOk(t)
    && s.removed + Rest(t, step) == Order(Iota(n), step, step)
    && s.received + ReceptionsLeft(t, step) == (n - 1) * step + 2
  }

  ghost predicate History(s: Ring, t: Token, n: nat, step: nat)
    requires 1 < step < n
  {
    Inv(s, t, n, step) && Accounts(s, t, n, step)
  }

  function TotalSteps(n: nat, step: nat): (r: int) {
    2 * ((n - 1) * step + 2) + (n - 2)
  }

  lemma ForwardRest(t: Token, step: nat)
    requires step >= 1 && t.Token? && t.k < |t.msg.alive| && t.msg.count > 0
    ensures Rest(AfterForward(t), step) == Rest(t, step)
  {
    var m, k := |t.msg.alive|, t.k;
    if k + 1 < m {
      RemainderIs(k + 1, m, 0, k + 1);
    } else {
      RemainderIs(k + 1, m, 1, k + 1 - m);
    }
    ModAdd(k + 1, t.msg.count - 1, m);
  }

  /** Where a run-out token goes next is where the list process goes next. */
  lemma NextStart(t: Token, step: nat)
    requires step > 1 && t.Token? && t.k < |t.msg.alive| && |t.msg.alive| >= 2
    ensures var t' := AfterElimination(t, step); var m := |t.msg.alive| - 1;
      (t'.k + t'.msg.count) % m == Onwards(t.k, step, m)
  {
    var m := |t.msg.alive| - 1;
    var t' := AfterElimination(t, step);
    if t.k < m {
      RemainderIs(t.k, m, 0, t.k);
    } else {
      RemainderIs(t.k, m, 1, 0);
    }
    ModAdd(t.k, step - 1, m);
    if m > 1 {
      assert t'.k + t'.msg.count == t.k % m + (step - 1);
    }
  }

  lemma EliminateRest(t: Token, step: nat)
    requires step > 1 && t.Token? && t.k < |t.msg.alive| && t.msg.count == 0 && |t.msg.alive| >= 2
    ensures Rest(t, step) == [t.msg.alive[t.k]] + Rest(AfterElimination(t, step), step)
  {
    var a, m, k := t.msg.alive, |t.msg.alive| - 1, t.k;
    var t' := AfterElimination(t, step);
    hide Order, Remove, Onwards;
    RemainderIs(k, m + 1, 0, k);
    assert Rest(t, step) == Order(a, k, step);
    NextStart(t, step);
    OrderHead(a, k, step);
    assert Rest(t', step) == Order(Remove(a, k), Onwards(k, step, m), step);
  }

  lemma EliminateReceptions(t: Token, step: nat)
    requires step > 1 && t.Token? && t.held && t.k < |t.msg.alive| && t.msg.count == 0 && |t.msg.alive| >= 2
    ensures ReceptionsLeft(AfterElimination(t, step), step) == ReceptionsLeft(t, step)
  {
    var m := |t.msg.alive|;
    assert (m - 2) * step == (m - 3) * step + step;
  }

  /** A read: one reception done. */
  lemma ReadAccounts(s: Ring, s': Ring, i: nat, t: Token, n: nat, step: nat)
    requires 1 < step < n
    requires Accounts(s, t, n, step) && t.Token? && !t.held && i < |s.pc| && s.pc[i].Reading?
    requires s'.pc == s.pc[i := Holding(t.msg)] && s'.removed == s.removed && s'.received == s.received + 1
    ensures Accounts(s', t.(held := true), n, step)
    ensures StepsLeft(s'.pc, t.(held := true), step) == StepsLeft(s.pc, t, step) - 1
  {
    hide Rest, Order, Switchers;
    SwitchersUpdate(s.pc, i, Holding(t.msg));
    HeldRest(t, step);
  }

  lemma HeldRest(t: Token, step: nat)
    requires step >= 1 && t.Token? && t.k < |t.msg.alive| && t.msg.count >= 0
    ensures Rest(t.(held := true), step) == Rest(t, step)
  {
  }

  /** A write: the order of leaving and the receptions to come are as before. */
  lemma WriteAccounts(s: Ring, s': Ring, i: nat, t: Token, t': Token, n: nat, step: nat)
    requires 1 < step < n
    requires Accounts(s, t, n, step) && t.Token? && t.held && i < |s.pc| && s.pc[i].Holding?
    requires TokenOk(t') && (t'.Token? ==> !t'.held)
    requires s'.received == s.received && ReceptionsLeft(t', step) == ReceptionsLeft(t, step)
    requires |s'.pc| == |s.pc| && s'.pc == s.pc[i := s'.pc[i]] && !s'.pc[i].Holding?
    requires SwitchesLeft([], t') == SwitchesLeft([], t) - if s'.pc[i].Switching? then 1 else 0
    requires s'.removed + Rest(t', step) == s.removed + Rest(t, step)
    ensures s' != s
    ensures Accounts(s', t', n, step)
    ensures StepsLeft(s'.pc, t', step) == StepsLeft(s.pc, t, step) - 1
  {
    SwitchersUpdate(s.pc, i, s'.pc[i]);
  }

  /** One turn of any child keeps the invariant and the history, and does exactly one unit of
      the remaining work unless it changes nothing. */
  lemma StepHistory(s: Ring, t: Token, i: nat, n: nat, step: nat) returns (t': Token)
    requires 1 < step < n
    requires History(s, t, n, step)
    ensures History(Step(s, i, step), t', n, step)
    ensures StepsLeft(Step(s, i, step).pc, t', step)
         == StepsLeft(s.pc, t, step) - if Step(s, i, step) == s then 0 else 1
  {
    t' := t;
    if i < n && Step(s, i, step) != s {
      if s.pc[i].Reading? {
        t' := ReadInv(s, t, i, n, step);
        ReadAccounts(s, Step(s, i, step), i, t, n, step);
      } else if s.pc[i].Switching? {
        SwitchInv(s, t, i, n, step);
        SwitchersUpdate(s.pc, i, Reading);
      } else if s.pc[i].Holding? {
        t' := HoldingHistory(s, t, i, n, step);
      }
    }
  }

  lemma HoldingHistory(s: Ring, t: Token, i: nat, n: nat, step: nat) returns (t': Token)
    requires 1 < step < n
    requires History(s, t, n, step) && i < n && s.pc[i].Holding?
    ensures History(Step(s, i, step), t', n, step)
    ensures StepsLeft(Step(s, i, step).pc, t', step) == StepsLeft(s.pc, t, step) - 1
    ensures Step(s, i, step) != s
  {
    assert t.Token? && t.held && t.msg == s.pc[i].msg && t.msg.alive[t.k] == i;
    if t.msg.count != 0 {
      t' := ForwardHistory(s, t, i, n, step);
    } else if |t.msg.alive| == 1 {
      t' := LastHistory(s, t, i, n, step);
    } else {
      t' := EliminateHistory(s, t, i, n, step);
    }
  }

  lemma ForwardHistory(s: Ring, t: Token, i: nat, n: nat, step: nat) returns (t': Token)
    requires 1 < step < n
    requires History(s, t, n, step) && i < n && s.pc[i].Holding? && s.pc[i].msg.count != 0
    ensures History(Step(s, i, step), t', n, step)
    ensures StepsLeft(Step(s, i, step).pc, t', step) == StepsLeft(s.pc, t, step) - 1
    ensures Step(s, i, step) != s
  {
    t' := ForwardInv(s, t, i, n, step);
    ForwardRest(t, step);
    WriteAccounts(s, Step(s, i, step), i, t, t', n, step);
  }

  lemma LastHistory(s: Ring, t: Token, i: nat, n: nat, step: nat) returns (t': Token)
    requires 1 < step < n
    requires History(s, t, n, step) && i < n && s.pc[i].Holding? && s.pc[i].msg.count == 0
    requires t.Token? && |t.msg.alive| == 1
    ensures History(Step(s, i, step), t', n, step)
    ensures StepsLeft(Step(s, i, step).pc, t', step) == StepsLeft(s.pc, t, step) - 1
    ensures Step(s, i, step) != s
  {
    t' := Gone;
    LastInv(s, t, i, n, step);
    assert Rest(t, step) == [i];
    WriteAccounts(s, Step(s, i, step), i, t, t', n, step);
  }

  lemma EliminateHistory(s: Ring, t: Token, i: nat, n: nat, step: nat) returns (t': Token)
    requires 1 < step < n
    requires History(s, t, n, step) && i < n && s.pc[i].Holding? && s.pc[i].msg.count == 0
    requires t.Token? && |t.msg.alive| >= 2
    ensures History(Step(s, i, step), t', n, step)
    ensures StepsLeft(Step(s, i, step).pc, t', step) == StepsLeft(s.pc, t, step) - 1
    ensures Step(s, i, step) != s
  {
    t' := EliminateInv(s, t, i, n, step);
    EliminateAccounts(s, Step(s, i, step), i, t, n, step);
  }

  lemma EliminateAccounts(s: Ring, s': Ring, i: nat, t: Token, n: nat, step: nat)
    requires 1 < step < n
    requires Accounts(s, t, n, step) && t.Token? && t.held && i < |s.pc| && s.pc[i].Holding?
    requires |t.msg.alive| >= 2 && t.msg.count == 0 && t.msg.alive[t.k] == i
    requires s'.pc == s.pc[i := Exited] && s'.removed == s.removed + [i] && s'.received == s.received
    ensures s' != s
    ensures Accounts(s', AfterElimination(t, step), n, step)
    ensures StepsLeft(s'.pc, AfterElimination(t, step), step) == StepsLeft(s.pc, t, step) - 1
  {
    EliminateWork(s.removed, t, step);
    WriteAccounts(s, s', i, t, AfterElimination(t, step), n, step);
  }

  lemma EliminateWork(removed: seq<int>, t: Token, step: nat)
    requires step > 1 && t.Token? && t.held && t.k < |t.msg.alive| && t.msg.count == 0 && |t.msg.alive| >= 2
    ensures ReceptionsLeft(AfterElimination(t, step), step) == ReceptionsLeft(t, step)
    ensures removed + [t.msg.alive[t.k]] + Rest(AfterElimination(t, step), step) == removed + Rest(t, step)
  {
    EliminateRest(t, step);
    EliminateReceptions(t, step);
    AppendShift(removed, t.msg.alive[t.k], Rest(AfterElimination(t, step), step));
  }

  lemma AppendShift(a: seq<int>, x: int, b: seq<int>)
    ensures a + [x] + b == a + ([x] + b)
  {
  }

  lemma StartHistory(n: nat, step: nat) returns (t: Token)
    requires 1 < step < n
    ensures History(Start(n, step), t, n, step)
    ensures StepsLeft(Start(n, step).pc, t, step) == TotalSteps(n, step)
  {
    hide Inv;
    t := StartInv(n, step);
    RemainderIs(step, n, 0, step);
    NoSwitchers(Start(n, step).pc);
    assert (n - 1) * step == (n - 2) * step + step;
  }

  lemma ExecSnoc(n: nat, step: nat, sched: seq<nat>)
    requires n >= 1 && sched != []
    ensures var before, i := sched[..|sched| - 1], sched[|sched| - 1];
      && Exec(n, step, sched) == Step(Exec(n, step, before), i, step)
      && Effective(n, step, sched)
         == Effective(n, step, before) + if Exec(n, step, sched) == Exec(n, step, before) then 0 else 1
  {
  }

  /** Every run, whatever the interleaving, from the start state. */
  lemma {:induction false} RunHistory(n: nat, step: nat, sched: seq<nat>) returns (t: Token)
    requires 1 < step < n
    ensures History(Exec(n, step, sched), t, n, step)
    ensures Effective(n, step, sched) + StepsLeft(Exec(n, step, sched).pc, t, step) == TotalSteps(n, step)
  {
    if sched == [] {
      t := StartHistory(n, step);
    } else {
      hide Exec, Effective, Step, History, StepsLeft, TotalSteps;
      ExecSnoc(n, step, sched);
      var last := |sched| - 1;
      var before := RunHistory(n, step, sched[..last]);
      t := StepHistory(Exec(n, step, sched[..last]), before, sched[last], n, step);
    }
  }

  // ---------------------------------------------------------------- main results

  ghost predicate AllExited(s: Ring) {
    forall i :: 0 <= i < |s.pc| ==> s.pc[i].Exited?
  }

  /** While a token is around, somebody can move. */
  lemma SomebodyCanMove(s: Ring, t: Token, n: nat, step: nat) returns (i: nat)
    requires 1 < step && Inv(s, t, n, step) && t.Token?
    ensures i < n && Step(s, i, step) != s
  {
    i := t.msg.alive[t.k];
    if s.pc[i].Switching? {
      SwitchInv(s, t, i, n, step);
      assert Step(s, i, step).pc[i].Reading?;
    } else if s.pc[i].Holding? {
      if s.pc[i].msg.count == 0 {
        assert |Step(s, i, step).removed| == |s.removed| + 1;
      } else {
        assert Step(s, i, step).pc[i] != s.pc[i];
      }
    } else {
      assert Read(s, i).received == s.received + 1;
    }
  }

  /** The ring does what the list process does: in every run children take themselves off the
      list in its order, never by way of an error exit; a run can be extended exactly until
      all have exited, which takes the same number of steps and receptions whatever the schedule. */
  lemma RingRefinesOrder(n: nat, step: nat, sched: seq<nat>)
    requires 1 < step < n
    ensures var s := Exec(n, step, sched);
      && s.removed <= Order(Iota(n), step, step)
      && (forall i :: 0 <= i < n ==> !s.pc[i].Failed?)
      && Effective(n, step, sched) <= TotalSteps(n, step)
      && (Effective(n, step, sched) == TotalSteps(n, step) <==> AllExited(s))
      && (AllExited(s) <==> forall i :: 0 <= i < n ==> Step(s, i, step) == s)
      && (AllExited(s) ==> s.removed == Order(Iota(n), step, step) && s.received == (n - 1) * step + 2)
  {
    var s := Exec(n, step, sched);
    var t := RunHistory(n, step, sched);
    if t.Gone? {
      NoSwitchers(s.pc);
    } else {
      var i := SomebodyCanMove(s, t, n, step);
      assert !s.pc[t.msg.alive[t.k]].Exited?;
      TokenHasWork(t, step);
    }
  }

  lemma TokenHasWork(t: Token, step: nat)
    requires t.Token? && t.k < |t.msg.alive| && t.msg.count >= 0
    ensures ReceptionsLeft(t, step) >= if t.held then 0 else 1
  {
    if |t.msg.alive| >= 2 {
      assert (|t.msg.alive| - 2) * step >= 0;
    }
  }

  /** Before the last hop no message is written to a process that is gone, and the reader of
      the token is never switching to one. */
  lemma NothingIsLost(n: nat, step: nat, sched: seq<nat>, i: nat)
    requires 1 < step < n && i < n
    ensures var s := Exec(n, step, sched);
      && (s.pc[i].Holding? && |s.pc[i].msg.alive| >= 2 ==> !Dead(s.pc[s.out[i]]) && s.out[i] in s.pc[i].msg.alive)
      && (s.pc[i].Switching? ==> s.pc[i].target < n && !Dead(s.pc[s.pc[i].target]))
  {
    var s := Exec(n, step, sched);
    var t := RunHistory(n, step, sched);
    if s.pc[i].Holding? && |s.pc[i].msg.alive| >= 2 {
      LinkStaysInside(s, t, i);
    } else if s.pc[i].Switching? {
      LinkStaysInside(s, t, i);
    }
  }
}
