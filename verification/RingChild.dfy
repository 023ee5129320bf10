/** The loop body of child_process and the first message of parent_process in src/34.c, on
    message buffers that are changed in place, proved to compute what TokenRing steps with. */
module RingChild {
  import opened Josephus
  import opened TokenRing

  const MAX_N := 1024

  class Message {
    var count: int
    var numAlive: nat
    const alive: array<int>

    ghost predicate Valid()
      reads this
    {
      numAlive <= alive.Length
    }

    ghost function View(): Msg
      reads this, alive
      requires Valid()
    {
      Msg(count, alive[..numAlive])
    }

    /** The message parent_process sends first. */
    constructor First(processCount: nat, step: int)
      requires processCount <= MAX_N
      ensures Valid() && fresh(alive)
      ensures View() == Msg(step, Iota(processCount))
    {
      count, numAlive := step, processCount;
      alive := new int[MAX_N];
      new;
      for i := 0 to processCount
        invariant numAlive == processCount && count == step && fresh(alive)
        invariant forall j :: 0 <= j < i ==> alive[j] == j
      {
        alive[i] := i;
      }
      assert alive[..numAlive] == Iota(processCount);
    }
  }

  /** How a turn ends: back to reading, exit(0) after elimination, or the UNREACHABLE exit(1). */
  datatype Outcome = Continue | Leave | Unreachable

  /** What is written, the output afterwards, and how the turn ends. */
  datatype Turned = Turned(sent: Msg, out: int, outcome: Outcome)

  function TurnOf(m: Msg, out: int, idx: int, step: int): (r: Turned) {
    if m.count == 0 then Turned(EliminatedMsg(m, idx, step), out, Leave)
    else
      var sent := m.(count := m.count - 1);
      var target := SwitchTarget(m.alive, idx);
      if sent.count != 0 || |m.alive| <= 2 then Turned(sent, out, Continue)
      else if target == -1 then Turned(sent, out, Unreachable)
      else Turned(sent, target, Continue)
  }

  class Child {
    const idx: int
    const step: int
    var fdOut: int

    constructor (idx: int, step: int, next: int)
      ensures this.idx == idx && this.step == step && fdOut == next
    {
      this.idx, this.step, this.fdOut := idx, step, next;
    }

    /** Takes idx off the list through a second buffer and sets the next count. */
    method RemoveSelf(msg: Message)
      requires msg.Valid()
      modifies msg, msg.alive
      ensures msg.Valid()
      ensures msg.View() == EliminatedMsg(old(msg.View()), idx, step)
    {
      var newAlive := new int[msg.alive.Length];
      var newNumAlive := 0;
      ghost var was := msg.alive[..msg.numAlive];
      for i := 0 to msg.numAlive
        invariant newNumAlive <= i
        invariant msg.numAlive == |was| && msg.alive[..|was|] == was
        invariant newAlive[..newNumAlive] == Compact(was[..i], idx)
      {
        assert was[..i + 1][..i] == was[..i];
        if msg.alive[i] != idx {
          newAlive[newNumAlive] := msg.alive[i];
          newNumAlive := newNumAlive + 1;
        }
      }
      assert was[..|was|] == was;
      msg.numAlive := newNumAlive;
      for i := 0 to newNumAlive
        invariant msg.numAlive == newNumAlive
        invariant newAlive[..newNumAlive] == Compact(was, idx)
        invariant msg.alive[..i] == newAlive[..i]
      {
        msg.alive[i] := newAlive[i];
      }
      msg.count := if msg.numAlive != 1 then step - 1 else 0;
    }

    /** The process two places after this one in the list, -1 when this one is not in it. */
    method TwoPlacesOn(msg: Message) returns (target: int)
      requires msg.Valid()
      ensures target == SwitchTarget(msg.View().alive, idx)
    {
      target := -1;
      ghost var a := msg.View().alive;
      for i := 0 to msg.numAlive
        invariant target == -1 && idx !in a[..i]
      {
        if msg.alive[i] == idx {
          target := msg.alive[(i + 2) % msg.numAlive];
          assert a[i] == idx && a[0..] == a;
          assert Position(a, idx, 0) == i;
          return;
        }
      }
      assert a[0..] == a && a[..|a|] == a;
    }

    /** One turn after a whole message has been read: what is written where, and what becomes
        of this child and its output. */
    method Turn(msg: Message) returns (sent: Msg, to: int, outcome: Outcome)
      requires msg.Valid()
      modifies this`fdOut, msg, msg.alive
      ensures to == old(fdOut)
      ensures Turned(sent, fdOut, outcome) == TurnOf(old(msg.View()), old(fdOut), idx, step)
    {
      to := fdOut;
      if msg.count == 0 {
        RemoveSelf(msg);
        sent := Msg(msg.count, msg.alive[..msg.numAlive]);
        outcome := Leave;
        return;
      }
      msg.count := msg.count - 1;
      sent := Msg(msg.count, msg.alive[..msg.numAlive]);
      outcome := Continue;
      if msg.count == 0 && msg.numAlive > 2 {
        var target := TwoPlacesOn(msg);
        if target == -1 {
          outcome := Unreachable;
          return;
        }
        fdOut := target;
      }
    }
  }

  /** A turn of child i is what the ring steps with: the same message into the same FIFO, the same
      end, and after one more step of the child, once the new target is open, the same output. */
  lemma TurnIsSteps(s: Ring, i: nat, m: Msg, step: nat)
    requires s.Shape(|s.pc|) && i < |s.pc| && s.pc[i] == Holding(m)
    requires forall x :: x in m.alive ==> 0 <= x < |s.pc|
    requires m.count == 0 || !Dead(s.pc[s.out[i]])
    ensures var turn, s1 := TurnOf(m, s.out[i], i, step), Step(s, i, step);
      && s1.inbox == Deliver(s, s.out[i], turn.sent).inbox && s1.out == s.out
      && (turn.outcome == Leave <==> s1.pc[i] == Exited)
      && (turn.outcome == Leave <==> s1.removed == s.removed + [i])
      && (turn.outcome == Unreachable <==> s1.pc[i] == Failed)
      && (turn.outcome == Continue && (s1.pc[i].Switching? ==> !Dead(s1.pc[turn.out])) ==>
            var s2 := if s1.pc[i].Switching? then Step(s1, i, step) else s1;
            s2.pc[i] == Reading && s2.out == s.out[i := turn.out] && s2.inbox == s1.inbox)
  {
    var target := SwitchTarget(m.alive, i);
    assert target == -1 || target in m.alive;
  }
}
