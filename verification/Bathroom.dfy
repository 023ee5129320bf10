/** The shared bathroom of src/52.c: any number of threads, a mutex semaphore, a slot semaphore
    of any size N > 0, and one program counter value for every semaphore operation and every
    access to the shared variables. */
module Bathroom {

  datatype Sex = Man | Woman

  /** state_t. */
  datatype Occupancy = Empty | Only(sex: Sex)

  /** What a thread does next, with the line of src/52.c that does it. */
  datatype Pc =
    | WantCheck    // 115: wait for the mutex
    | Check        // 116-117: look at state and perhaps take it
    | PostAdmit    // 118
    | WaitSlot     // 119
    | WantEnter    // 121: wait for the mutex
    | Enter        // 122: inside++
    | PostEnter    // 125
    | PostRetry    // 127: give the mutex back and try again
    | WantLeave    // 135: wait for the mutex
    | Leave        // 136: inside--
    | Reset        // 138
    | PostLeave    // 139
    | PostSlot     // 140
    | Done

  datatype Room = Room(mutex: nat, slots: nat, state: Occupancy, inside: int, pc: seq<Pc>)
  {
    function Goto(t: nat, p: Pc): Room
      requires t < |pc|
    {
      this.(pc := pc[t := p])
    }
  }

  function Start(n: nat, threads: nat): (r: Room) {
    Room(1, n, Empty, 0, seq(threads, i => WantCheck))
  }

  /** Thread t makes one move; a thread blocked on a semaphore stays where it is. */
  function Next(r: Room, sexes: seq<Sex>, t: nat): (r': Room)
    requires |r.pc| == |sexes|
    ensures |r'.pc| == |r.pc|
  {
    if t >= |r.pc| then r else
      match r.pc[t]
      case WantCheck => if r.mutex == 0 then r else r.(mutex := r.mutex - 1).Goto(t, Check)
      case Check =>
        if r.state == Empty || r.state == Only(sexes[t])
        then r.(state := Only(sexes[t])).Goto(t, PostAdmit)
        else r.Goto(t, PostRetry)
      case PostAdmit => r.(mutex := r.mutex + 1).Goto(t, WaitSlot)
      case WaitSlot => if r.slots == 0 then r else r.(slots := r.slots - 1).Goto(t, WantEnter)
      case WantEnter => if r.mutex == 0 then r else r.(mutex := r.mutex - 1).Goto(t, Enter)
      case Enter => r.(inside := r.inside + 1).Goto(t, PostEnter)
      case PostEnter => r.(mutex := r.mutex + 1).Goto(t, WantLeave)
      case PostRetry => r.(mutex := r.mutex + 1).Goto(t, WantCheck)
      case WantLeave => if r.mutex == 0 then r else r.(mutex := r.mutex - 1).Goto(t, Leave)
      case Leave => r.(inside := r.inside - 1).Goto(t, Reset)
      case Reset => (if r.inside == 0 then r.(state := Empty) else r).Goto(t, PostLeave)
      case PostLeave => r.(mutex := r.mutex + 1).Goto(t, PostSlot)
      case PostSlot => r.(slots := r.slots + 1).Goto(t, Done)
      case Done => r
  }

  /** The room after a schedule of threads. */
  function Run(r: Room, sexes: seq<Sex>, sched: seq<nat>): (r': Room)
    requires |r.pc| == |sexes|
    ensures |r'.pc| == |r.pc|
  {
    if sched == [] then r
    else Next(Run(r, sexes, sched[..|sched| - 1]), sexes, sched[|sched| - 1])
  }

  function Exec(n: nat, sexes: seq<Sex>, sched: seq<nat>): (r: Room)
    ensures |r.pc| == |sexes|
  {
    Run(Start(n, |sexes|), sexes, sched)
  }

  /** The same move as the statements of the source make it, on shared variables. */
  class Threads {
    const sexes: seq<Sex>
    var mutex: nat
    var slots: nat
    var state: Occupancy
    var inside: int
    const pc: array<Pc>

    ghost function View(): Room
      reads this, pc
    {
      Room(mutex, slots, state, inside, pc[..])
    }

    constructor (n: nat, sexes: seq<Sex>)
      ensures this.sexes == sexes && fresh(pc) && pc.Length == |sexes|
      ensures View() == Start(n, |sexes|)
    {
      this.sexes, mutex, slots, state, inside := sexes, 1, n, Empty, 0;
      pc := new Pc[|sexes|](i => WantCheck);
    }

    method Move(t: nat)
      requires t < pc.Length == |sexes|
      modifies this, pc
      ensures View() == Next(old(View()), sexes, t)
    {
      match pc[t] {
        case WantCheck =>
          if mutex > 0 {
            mutex := mutex - 1;
            pc[t] := Check;
          }
        case Check =>
          if state == Empty || state == Only(sexes[t]) {
            state := Only(sexes[t]);
            pc[t] := PostAdmit;
          } else {
            pc[t] := PostRetry;
          }
        case PostAdmit =>
          mutex := mutex + 1;
          pc[t] := WaitSlot;
        case WaitSlot =>
          if slots > 0 {
            slots := slots - 1;
            pc[t] := WantEnter;
          }
        case WantEnter =>
          if mutex > 0 {
            mutex := mutex - 1;
            pc[t] := Enter;
          }
        case Enter =>
          inside := inside + 1;
          pc[t] := PostEnter;
        case PostEnter =>
          mutex := mutex + 1;
          pc[t] := WantLeave;
        case PostRetry =>
          mutex := mutex + 1;
          pc[t] := WantCheck;
        case WantLeave =>
          if mutex > 0 {
            mutex := mutex - 1;
            pc[t] := Leave;
          }
        case Leave =>
          inside := inside - 1;
          pc[t] := Reset;
        case Reset =>
          if inside == 0 {
            state := Empty;
          }
          pc[t] := PostLeave;
        case PostLeave =>
          mutex := mutex + 1;
          pc[t] := PostSlot;
        case PostSlot =>
          slots := slots + 1;
          pc[t] := Done;
        case Done =>
      }
      ghost var was := old(pc[..]);
      assert pc[..] == was[t := pc[t]];
    }
  }

  // ---------------------------------------------------------------- counting threads

  predicate InMutex(p: Pc) {
    p in {Check, PostAdmit, Enter, PostEnter, PostRetry, Leave, Reset, PostLeave}
  }

  predicate HoldsSlot(p: Pc) {
    p in {WantEnter, Enter, PostEnter, WantLeave, Leave, Reset, PostLeave, PostSlot}
  }

  /** Between the increment and the decrement of inside. */
  predicate Inside(p: Pc) {
    p in {PostEnter, WantLeave, Leave}
  }

  /** Between taking state (117) and the increment (122). */
  predicate Admitted(p: Pc) {
    p in {PostAdmit, WaitSlot, WantEnter, Enter}
  }

  function Sum(pc: seq<Pc>, f: Pc -> nat): (r: nat) {
    if pc == [] then 0 else Sum(pc[..|pc| - 1], f) + f(pc[|pc| - 1])
  }

  lemma {:induction false} SumUpdate(pc: seq<Pc>, t: nat, p: Pc, f: Pc -> nat)
    requires t < |pc|
    ensures Sum(pc[t := p], f) == Sum(pc, f) - f(pc[t]) + f(p)
  {
    var last := |pc| - 1;
    if t == last {
      assert pc[t := p][..last] == pc[..last];
    } else {
      SumUpdate(pc[..last], t, p, f);
      assert pc[t := p][..last] == pc[..last][t := p];
    }
  }

  lemma {:induction false} SumLower(pc: seq<Pc>, t: nat, f: Pc -> nat)
    requires t < |pc|
    ensures f(pc[t]) <= Sum(pc, f)
  {
    if t < |pc| - 1 {
      SumLower(pc[..|pc| - 1], t, f);
    }
  }

  lemma {:induction false} SumTwo(pc: seq<Pc>, t: nat, u: nat, f: Pc -> nat)
    requires t < u < |pc|
    ensures f(pc[t]) + f(pc[u]) <= Sum(pc, f)
  {
    if u == |pc| - 1 {
      SumLower(pc[..u], t, f);
    } else {
      SumTwo(pc[..|pc| - 1], t, u, f);
    }
  }

  lemma {:induction false} SumZero(pc: seq<Pc>, f: Pc -> nat)
    requires forall i :: 0 <= i < |pc| ==> f(pc[i]) == 0
    ensures Sum(pc, f) == 0
  {
    if pc != [] {
      SumZero(pc[..|pc| - 1], f);
    }
  }

  lemma {:induction false} SumWitness(pc: seq<Pc>, f: Pc -> nat) returns (t: nat)
    requires Sum(pc, f) > 0
    ensures t < |pc| && f(pc[t]) > 0
  {
    t := |pc| - 1;
    if f(pc[t]) == 0 {
      t := SumWitness(pc[..t], f);
    }
  }

  function Count(pc: seq<Pc>, p: Pc -> bool): (r: nat) {
    Sum(pc, x => if p(x) then 1 else 0)
  }

  lemma CountUpdate(pc: seq<Pc>, t: nat, to: Pc, p: Pc -> bool)
    requires t < |pc|
    ensures Count(pc[t := to], p) == Count(pc, p) - (if p(pc[t]) then 1 else 0) + if p(to) then 1 else 0
  {
    SumUpdate(pc, t, to, x => if p(x) then 1 else 0);
  }

  /** At most one of several threads when the count is at most one. */
  lemma CountOne(pc: seq<Pc>, t: nat, u: nat, p: Pc -> bool)
    requires t < |pc| && u < |pc| && t != u && p(pc[t]) && p(pc[u])
    ensures Count(pc, p) >= 2
  {
    SumTwo(pc, if t < u then t else u, if t < u then u else t, x => if p(x) then 1 else 0);
  }

  lemma CountPositive(pc: seq<Pc>, t: nat, p: Pc -> bool)
    requires t < |pc| && p(pc[t])
    ensures Count(pc, p) >= 1
  {
    SumLower(pc, t, x => if p(x) then 1 else 0);
  }

  lemma CountWitness(pc: seq<Pc>, p: Pc -> bool) returns (t: nat)
    requires Count(pc, p) > 0
    ensures t < |pc| && p(pc[t])
  {
    t := SumWitness(pc, x => if p(x) then 1 else 0);
  }

  lemma CountZero(pc: seq<Pc>, p: Pc -> bool)
    requires forall i :: 0 <= i < |pc| ==> !p(pc[i])
    ensures Count(pc, p) == 0
  {
    SumZero(pc, x => if p(x) then 1 else 0);
  }

  lemma {:induction false} SumLe(pc: seq<Pc>, f: Pc -> nat, g: Pc -> nat)
    requires forall p :: f(p) <= g(p)
    ensures Sum(pc, f) <= Sum(pc, g)
  {
    if pc != [] {
      SumLe(pc[..|pc| - 1], f, g);
    }
  }

  lemma CountLe(pc: seq<Pc>, p: Pc -> bool, q: Pc -> bool)
    requires forall x :: p(x) ==> q(x)
    ensures Count(pc, p) <= Count(pc, q)
  {
    SumLe(pc, x => if p(x) then 1 else 0, x => if q(x) then 1 else 0);
  }

  // ---------------------------------------------------------------- what every run keeps

  /** Admitted, inside, or on the way out with state not yet looked at. */
  predicate Present(p: Pc) {
    Admitted(p) || Inside(p) || p == Reset
  }

  ghost predicate Inv(r: Room, n: nat) {
    && r.mutex + Count(r.pc, InMutex) == 1
    && r.slots + Count(r.pc, HoldsSlot) == n
    && r.inside == Count(r.pc, Inside)
    && (r.state != Empty ==> Count(r.pc, Present) > 0)
  }

  lemma StartInv(n: nat, threads: nat)
    ensures Inv(Start(n, threads), n)
  {
    var pc := Start(n, threads).pc;
    CountZero(pc, InMutex);
    CountZero(pc, HoldsSlot);
    CountZero(pc, Inside);
  }

  lemma SemaphoreStep(r: Room, sexes: seq<Sex>, t: nat, n: nat)
    requires |r.pc| == |sexes| && Inv(r, n)
    ensures var r' := Next(r, sexes, t);
      r'.mutex + Count(r'.pc, InMutex) == 1 && r'.slots + Count(r'.pc, HoldsSlot) == n
  {
    if t < |r.pc| {
      var to := Next(r, sexes, t).pc[t];
      assert r.pc[t := r.pc[t]] == r.pc;
      CountUpdate(r.pc, t, to, InMutex);
      CountUpdate(r.pc, t, to, HoldsSlot);
    }
  }

  lemma InsideStep(r: Room, sexes: seq<Sex>, t: nat, n: nat)
    requires |r.pc| == |sexes| && Inv(r, n)
    ensures var r' := Next(r, sexes, t); r'.inside == Count(r'.pc, Inside)
  {
    if t < |r.pc| {
      var to := Next(r, sexes, t).pc[t];
      assert r.pc[t := r.pc[t]] == r.pc;
      CountUpdate(r.pc, t, to, Inside);
    }
  }

  lemma StateStep(r: Room, sexes: seq<Sex>, t: nat, n: nat)
    requires |r.pc| == |sexes| && Inv(r, n)
    ensures var r' := Next(r, sexes, t); r'.state != Empty ==> Count(r'.pc, Present) > 0
  {
    if t < |r.pc| {
      var r' := Next(r, sexes, t);
      assert r.pc[t := r.pc[t]] == r.pc;
      CountUpdate(r.pc, t, r'.pc[t], Present);
      if Present(r'.pc[t]) {
        CountPositive(r'.pc, t, Present);
      } else if r.pc[t] == Reset && r.inside > 0 {
        var u := CountWitness(r.pc, Inside);
        CountPositive(r'.pc, u, Present);
      }
    }
  }

  lemma StepInv(r: Room, sexes: seq<Sex>, t: nat, n: nat)
    requires |r.pc| == |sexes| && Inv(r, n)
    ensures Inv(Next(r, sexes, t), n)
  {
    SemaphoreStep(r, sexes, t, n);
    InsideStep(r, sexes, t, n);
    StateStep(r, sexes, t, n);
  }

  lemma {:induction false} RunInv(n: nat, sexes: seq<Sex>, sched: seq<nat>)
    ensures Inv(Exec(n, sexes, sched), n)
  {
    if sched == [] {
      StartInv(n, |sexes|);
    } else {
      RunInv(n, sexes, sched[..|sched| - 1]);
      StepInv(Exec(n, sexes, sched[..|sched| - 1]), sexes, sched[|sched| - 1], n);
    }
  }

  /** In every reachable room: one thread at a time in the mutex; free slots and slot holders
      make up N; inside counts the threads between increment and decrement, so 0 <= inside <= N;
      and whenever the mutex is free, state is taken only if somebody is admitted or inside. */
  lemma Reachable(n: nat, sexes: seq<Sex>, sched: seq<nat>)
    ensures var r := Exec(n, sexes, sched);
      && r.mutex + Count(r.pc, InMutex) == 1
      && r.slots + Count(r.pc, HoldsSlot) == n
      && r.inside == Count(r.pc, Inside) && 0 <= r.inside <= n
      && (r.mutex == 1 && r.state != Empty ==>
            exists t :: 0 <= t < |r.pc| && (Admitted(r.pc[t]) || Inside(r.pc[t])))
  {
    var r := Exec(n, sexes, sched);
    RunInv(n, sexes, sched);
    CountLe(r.pc, Inside, HoldsSlot);
    if r.mutex == 1 && r.state != Empty {
      var t := CountWitness(r.pc, Present);
      if r.pc[t] == Reset {
        CountPositive(r.pc, t, InMutex);
      }
    }
  }

  // ---------------------------------------------------------------- men or women

  /** Nobody inside together with the other sex. */
  ghost predicate Exclusive(r: Room, sexes: seq<Sex>)
    requires |r.pc| == |sexes|
  {
    forall t, u :: 0 <= t < |sexes| && 0 <= u < |sexes| && Inside(r.pc[t]) && Inside(r.pc[u]) ==> sexes[t] == sexes[u]
  }

  /** Thread t is about to empty state although somebody has been admitted and is not yet inside. */
  predicate ResetsTooEarly(r: Room, t: nat) {
    && t < |r.pc| && r.pc[t] == Reset && r.inside == 0
    && exists u :: 0 <= u < |r.pc| && Admitted(r.pc[u])
  }

  /** No move of the run from the start empties state too early. */
  predicate Clean(n: nat, sexes: seq<Sex>, sched: seq<nat>) {
    forall k :: 0 <= k < |sched| ==> !ResetsTooEarly(Exec(n, sexes, sched[..k]), sched[k])
  }

  ghost predicate Agreed(r: Room, sexes: seq<Sex>)
    requires |r.pc| == |sexes|
  {
    forall t :: 0 <= t < |sexes| && (Present(r.pc[t]) || r.pc[t] == Leave) ==> r.state == Only(sexes[t])
  }

  lemma AgreedStep(r: Room, sexes: seq<Sex>, t: nat, n: nat)
    requires |r.pc| == |sexes| && Inv(r, n) && Agreed(r, sexes)
    requires !ResetsTooEarly(r, t)
    ensures Agreed(Next(r, sexes, t), sexes)
  {
    if t < |sexes| {
      var r' := Next(r, sexes, t);
      forall u | 0 <= u < |sexes| && Present(r'.pc[u]) ensures r'.state == Only(sexes[u]) {
        if u != t && r.pc[t] == Reset && r.inside == 0 {
          if Inside(r.pc[u]) {
            CountPositive(r.pc, u, Inside);
          } else {
            CountOne(r.pc, t, u, InMutex);
          }
        }
      }
    }
  }

  lemma {:induction false} CleanAgreed(n: nat, sexes: seq<Sex>, sched: seq<nat>)
    requires Clean(n, sexes, sched)
    ensures Agreed(Exec(n, sexes, sched), sexes)
  {
    if sched != [] {
      var before := sched[..|sched| - 1];
      assert forall k :: 0 <= k <= |before| ==> before[..k] == sched[..k];
      CleanAgreed(n, sexes, before);
      RunInv(n, sexes, before);
      AgreedStep(Exec(n, sexes, before), sexes, sched[|sched| - 1], n);
    }
  }

  /** Men and women are never inside together on a run in which line 138 never empties state
      while a thread is between line 117 and line 122. */
  lemma CleanRunsAreExclusive(n: nat, sexes: seq<Sex>, sched: seq<nat>)
    requires Clean(n, sexes, sched)
    ensures Exclusive(Exec(n, sexes, sched), sexes)
  {
    CleanAgreed(n, sexes, sched);
  }

  // ---------------------------------------------------------------- when exclusion can be relied on

  predicate OneSex(sexes: seq<Sex>) {
    forall t, u :: 0 <= t < |sexes| && 0 <= u < |sexes| ==> sexes[t] == sexes[u]
  }

  lemma CleanExtend(n: nat, sexes: seq<Sex>, sched: seq<nat>, t: nat)
    requires Clean(n, sexes, sched) && !ResetsTooEarly(Exec(n, sexes, sched), t)
    ensures Clean(n, sexes, sched + [t])
  {
    var more := sched + [t];
    forall k | 0 <= k < |more| ensures !ResetsTooEarly(Exec(n, sexes, more[..k]), more[k]) {
      if k < |sched| {
        assert more[..k] == sched[..k];
      } else {
        assert more[..k] == sched;
      }
    }
  }

  lemma TwoCannotResetEarly(r: Room, sexes: seq<Sex>, t: nat)
    requires |r.pc| == |sexes| <= 2 && !OneSex(sexes) && Agreed(r, sexes)
    ensures !ResetsTooEarly(r, t)
  {
    if t < |r.pc| && r.pc[t] == Reset {
      assert Present(r.pc[t]);
      assert forall u :: 0 <= u < |r.pc| && Admitted(r.pc[u]) ==> u != t && sexes[u] == sexes[t];
    }
  }

  lemma {:induction false} TwoThreadsAreClean(n: nat, sexes: seq<Sex>, sched: seq<nat>)
    requires |sexes| <= 2 && !OneSex(sexes)
    ensures Clean(n, sexes, sched)
  {
    if sched != [] {
      var before, t := sched[..|sched| - 1], sched[|sched| - 1];
      TwoThreadsAreClean(n, sexes, before);
      CleanAgreed(n, sexes, before);
      TwoCannotResetEarly(Exec(n, sexes, before), sexes, t);
      CleanExtend(n, sexes, before, t);
      assert before + [t] == sched;
    }
  }

  lemma ExclusiveWhen(n: nat, sexes: seq<Sex>, sched: seq<nat>)
    requires n == 1 || |sexes| <= 2 || OneSex(sexes)
    ensures Exclusive(Exec(n, sexes, sched), sexes)
  {
    var r := Exec(n, sexes, sched);
    if OneSex(sexes) {
    } else if n == 1 {
      RunInv(n, sexes, sched);
      CountLe(r.pc, Inside, HoldsSlot);
      forall t, u | 0 <= t < |sexes| && 0 <= u < |sexes| && Inside(r.pc[t]) && Inside(r.pc[u]) ensures t == u {
        if t != u {
          CountOne(r.pc, t, u, Inside);
        }
      }
    } else {
      TwoThreadsAreClean(n, sexes, sched);
      CleanRunsAreExclusive(n, sexes, sched);
    }
  }

  function Moves(r: Room, sexes: seq<Sex>, t: nat, k: nat): (r': Room)
    requires |r.pc| == |sexes|
    ensures |r'.pc| == |r.pc|
    decreases k
  {
    if k == 0 then r else Next(Moves(r, sexes, t, k - 1), sexes, t)
  }

  function Times(t: nat, k: nat): (r: seq<nat>) {
    seq(k, i => t)
  }

  lemma {:induction false} RunConcat(r: Room, sexes: seq<Sex>, a: seq<nat>, b: seq<nat>)
    requires |r.pc| == |sexes|
    ensures Run(r, sexes, a + b) == Run(Run(r, sexes, a), sexes, b)
  {
    if b == [] {
      assert a + b == a;
    } else {
      RunConcat(r, sexes, a, b[..|b| - 1]);
      assert (a + b)[..|a + b| - 1] == a + b[..|b| - 1];
    }
  }

  lemma {:induction false} RunTimes(r: Room, sexes: seq<Sex>, t: nat, k: nat)
    requires |r.pc| == |sexes|
    ensures Run(r, sexes, Times(t, k)) == Moves(r, sexes, t, k)
  {
    if k > 0 {
      hide Next;
      RunTimes(r, sexes, t, k - 1);
      assert Times(t, k)[..k - 1] == Times(t, k - 1) && Times(t, k)[k - 1] == t;
    }
  }

  /** Follows a run by k moves of one thread. */
  lemma Extend(r: Room, sexes: seq<Sex>, sched: seq<nat>, t: nat, k: nat)
    requires |r.pc| == |sexes|
    ensures Run(r, sexes, sched + Times(t, k)) == Moves(Run(r, sexes, sched), sexes, t, k)
  {
    RunConcat(r, sexes, sched, Times(t, k));
    RunTimes(Run(r, sexes, sched), sexes, t, k);
  }

  lemma ThreeMoves(r: Room, sexes: seq<Sex>, t: nat)
    requires |r.pc| == |sexes| && t < |sexes|
    requires r.pc[t] == WantCheck && r.mutex == 1 && (r.state == Empty || r.state == Only(sexes[t]))
    ensures Moves(r, sexes, t, 3) == r.(state := Only(sexes[t])).Goto(t, WaitSlot)
  {
    var r2 := Moves(r, sexes, t, 2);
    assert r2 == Next(Next(r, sexes, t), sexes, t);
  }

  lemma FourMoves(r: Room, sexes: seq<Sex>, t: nat)
    requires |r.pc| == |sexes| && t < |sexes|
    requires r.pc[t] == WaitSlot && r.mutex == 1 && r.slots >= 1
    ensures Moves(r, sexes, t, 4) == r.(slots := r.slots - 1, inside := r.inside + 1).Goto(t, WantLeave)
  {
    var r2 := Next(Next(r, sexes, t), sexes, t);
    assert Moves(r, sexes, t, 2) == r2;
    assert Moves(r, sexes, t, 4) == Next(Next(r2, sexes, t), sexes, t);
  }

  lemma FiveMoves(r: Room, sexes: seq<Sex>, t: nat)
    requires |r.pc| == |sexes| && t < |sexes|
    requires r.pc[t] == WantLeave && r.mutex == 1
    ensures Moves(r, sexes, t, 5)
         == r.(slots := r.slots + 1, inside := r.inside - 1,
               state := if r.inside == 1 then Empty else r.state).Goto(t, Done)
  {
    var r2 := Next(Next(r, sexes, t), sexes, t);
    assert Moves(r, sexes, t, 2) == r2;
    var r4 := Next(Next(r2, sexes, t), sexes, t);
    assert Moves(r, sexes, t, 4) == r4;
  }

  /** First a enters; b of the same sex is admitted; a leaves and empties state. */
  lemma StateEmptiedEarly(n: nat, sexes: seq<Sex>, a: nat, b: nat) returns (sched: seq<nat>)
    requires n >= 1 && a < |sexes| && b < |sexes| && a != b && sexes[a] == sexes[b]
    ensures Exec(n, sexes, sched) == Start(n, |sexes|).Goto(a, Done).Goto(b, WaitSlot)
  {
    var r := Start(n, |sexes|);
    sched := [];
    Extend(r, sexes, sched, a, 3); ThreeMoves(Run(r, sexes, sched), sexes, a); sched := sched + Times(a, 3);
    Extend(r, sexes, sched, a, 4); FourMoves(Run(r, sexes, sched), sexes, a); sched := sched + Times(a, 4);
    Extend(r, sexes, sched, b, 3); ThreeMoves(Run(r, sexes, sched), sexes, b); sched := sched + Times(b, 3);
    Extend(r, sexes, sched, a, 5); FiveMoves(Run(r, sexes, sched), sexes, a); sched := sched + Times(a, 5);
    assert Exec(n, sexes, sched).pc == r.pc[a := Done][b := WaitSlot];
  }

  /** Then w of the other sex enters, and b enters too. */
  lemma MixedRun(n: nat, sexes: seq<Sex>, a: nat, b: nat, w: nat) returns (sched: seq<nat>)
    requires n >= 2 && a < |sexes| && b < |sexes| && w < |sexes| && a != b
    requires sexes[a] == sexes[b] != sexes[w]
    ensures !Exclusive(Exec(n, sexes, sched), sexes)
  {
    var r := Start(n, |sexes|);
    sched := StateEmptiedEarly(n, sexes, a, b);
    Extend(r, sexes, sched, w, 3); ThreeMoves(Run(r, sexes, sched), sexes, w); sched := sched + Times(w, 3);
    Extend(r, sexes, sched, w, 4); FourMoves(Run(r, sexes, sched), sexes, w); sched := sched + Times(w, 4);
    Extend(r, sexes, sched, b, 4); FourMoves(Run(r, sexes, sched), sexes, b); sched := sched + Times(b, 4);
    var last := Exec(n, sexes, sched);
    assert Inside(last.pc[w]) && Inside(last.pc[b]);
  }

  /** Men and women can be relied on never to be inside together exactly when there is a single
      slot, or there are at most two threads, or all threads are of one sex. */
  lemma ExclusionExactly(n: nat, sexes: seq<Sex>)
    requires n >= 1
    ensures (forall sched :: Exclusive(Exec(n, sexes, sched), sexes))
       <==> n == 1 || |sexes| <= 2 || OneSex(sexes)
  {
    if n == 1 || |sexes| <= 2 || OneSex(sexes) {
      forall sched ensures Exclusive(Exec(n, sexes, sched), sexes) {
        ExclusiveWhen(n, sexes, sched);
      }
    } else {
      var i, j :| 0 <= i < |sexes| && 0 <= j < |sexes| && sexes[i] != sexes[j];
      var k := if i != 0 && j != 0 then 0 else if i != 1 && j != 1 then 1 else 2;
      assert k != i && k != j;
      if sexes[k] == sexes[i] {
        var sched := MixedRun(n, sexes, i, k, j);
      } else {
        var sched := MixedRun(n, sexes, j, k, i);
      }
    }
  }

  // ---------------------------------------------------------------- everybody can finish

  function Rank(p: Pc): (r: nat) {
    match p
    case Check => 13
    case PostRetry => 12
    case WantCheck => 11
    case PostAdmit => 10
    case WaitSlot => 9
    case WantEnter => 8
    case Enter => 7
    case PostEnter => 6
    case WantLeave => 5
    case Leave => 4
    case Reset => 3
    case PostLeave => 2
    case PostSlot => 1
    case Done => 0
  }

  ghost predicate AllDone(r: Room) {
    forall t :: 0 <= t < |r.pc| ==> r.pc[t] == Done
  }

  /** With the mutex free and nobody holding or waiting for a slot, state is empty. */
  lemma IdleRoom(r: Room, n: nat)
    requires Inv(r, n) && r.mutex == 1
    requires forall t :: 0 <= t < |r.pc| ==> !(r.pc[t] in {PostSlot, WantLeave, WantEnter})
    ensures r.slots == n
    ensures (forall t :: 0 <= t < |r.pc| ==> r.pc[t] != WaitSlot) ==> r.state == Empty
  {
    forall t | 0 <= t < |r.pc| ensures !InMutex(r.pc[t]) {
      if InMutex(r.pc[t]) {
        CountPositive(r.pc, t, InMutex);
      }
    }
    CountZero(r.pc, HoldsSlot);
    if forall t :: 0 <= t < |r.pc| ==> r.pc[t] != WaitSlot {
      CountZero(r.pc, Present);
    }
  }

  /** A thread that is neither blocked nor at the start of an attempt gets closer to the end. */
  lemma MoveAdvances(r: Room, sexes: seq<Sex>, t: nat)
    requires |r.pc| == |sexes| && t < |r.pc| && !(r.pc[t] in {WantCheck, Done})
    requires r.pc[t] in {WantEnter, WantLeave} ==> r.mutex > 0
    requires r.pc[t] == WaitSlot ==> r.slots > 0
    ensures var r' := Moves(r, sexes, t, 1);
      r'.pc == r.pc[t := r'.pc[t]] && Rank(r'.pc[t]) < Rank(r.pc[t]) && r' == Next(r, sexes, t)
  {
    assert Moves(r, sexes, t, 0) == r;
  }

  /** An attempt that finds the mutex free and state empty is admitted. */
  lemma AttemptAdvances(r: Room, sexes: seq<Sex>, t: nat)
    requires |r.pc| == |sexes| && t < |r.pc| && r.pc[t] == WantCheck && r.mutex == 1 && r.state == Empty
    ensures var r' := Moves(r, sexes, t, 2);
      r'.pc == r.pc[t := PostAdmit] && r' == Next(Next(r, sexes, t), sexes, t)
  {
    assert Moves(r, sexes, t, 1) == Next(r, sexes, t);
  }

  /** Some thread can move so that the work left shrinks. */
  lemma Advance(r: Room, sexes: seq<Sex>, n: nat) returns (t: nat, k: nat)
    requires n >= 1 && |r.pc| == |sexes| && Inv(r, n) && !AllDone(r)
    ensures t < |r.pc|
    ensures var r' := Moves(r, sexes, t, k);
      r'.pc == r.pc[t := r'.pc[t]] && Rank(r'.pc[t]) < Rank(r.pc[t]) && Inv(r', n)
  {
    k := 1;
    if r.mutex == 0 {
      t := CountWitness(r.pc, InMutex);
    } else if u :| 0 <= u < |r.pc| && r.pc[u] in {PostSlot, WantLeave, WantEnter} {
      t := u;
    } else {
      IdleRoom(r, n);
      if u :| 0 <= u < |r.pc| && r.pc[u] == WaitSlot {
        t := u;
      } else {
        var u :| 0 <= u < |r.pc| && r.pc[u] != Done;
        t, k := u, 2;
        if InMutex(r.pc[t]) {
          CountPositive(r.pc, t, InMutex);
        }
        AttemptAdvances(r, sexes, t);
        StepInv(r, sexes, t, n);
        StepInv(Next(r, sexes, t), sexes, t, n);
        return;
      }
    }
    MoveAdvances(r, sexes, t);
    StepInv(r, sexes, t, n);
  }

  lemma {:induction false} FinishFrom(r: Room, sexes: seq<Sex>, n: nat) returns (sched: seq<nat>)
    requires n >= 1 && |r.pc| == |sexes| && Inv(r, n)
    ensures AllDone(Run(r, sexes, sched))
    decreases Sum(r.pc, Rank)
  {
    sched := [];
    if !AllDone(r) {
      var t, k := Advance(r, sexes, n);
      var r' := Moves(r, sexes, t, k);
      SumUpdate(r.pc, t, r'.pc[t], Rank);
      var rest := FinishFrom(r', sexes, n);
      sched := Times(t, k) + rest;
      RunTimes(r, sexes, t, k);
      RunConcat(r, sexes, Times(t, k), rest);
    }
  }

  // ---------------------------------------------------------------- nobody gives up

  predicate HasEntered(p: Pc) {
    p in {PostEnter, WantLeave, Leave, Reset, PostLeave, PostSlot, Done}
  }

  /** After the first k moves thread t is between the increment and the decrement. */
  predicate InsideAt(n: nat, sexes: seq<Sex>, sched: seq<nat>, t: nat, k: nat)
    requires t < |sexes| && k <= |sched|
  {
    Inside(Exec(n, sexes, sched[..k]).pc[t])
  }

  ghost predicate WasInside(n: nat, sexes: seq<Sex>, sched: seq<nat>, t: nat)
    requires t < |sexes|
  {
    exists k :: 0 <= k <= |sched| && InsideAt(n, sexes, sched, t, k)
  }

  /** The k-th move is thread t's look at state, which was empty or of its own sex. */
  predicate AdmittedAt(n: nat, sexes: seq<Sex>, sched: seq<nat>, t: nat, k: nat)
    requires t < |sexes| && k < |sched|
  {
    var r := Exec(n, sexes, sched[..k]);
    sched[k] == t && r.pc[t] == Check && (r.state == Empty || r.state == Only(sexes[t]))
  }

  lemma ExecSnoc(n: nat, sexes: seq<Sex>, sched: seq<nat>)
    requires sched != []
    ensures Exec(n, sexes, sched) == Next(Exec(n, sexes, sched[..|sched| - 1]), sexes, sched[|sched| - 1])
  {
  }

  /** A thread that has finished, or only left, has been inside; being refused does not end it. */
  lemma {:induction false} FinishedWasInside(n: nat, sexes: seq<Sex>, sched: seq<nat>, t: nat) returns (k: nat)
    requires t < |sexes| && HasEntered(Exec(n, sexes, sched).pc[t])
    ensures k <= |sched| && InsideAt(n, sexes, sched, t, k)
  {
    hide Exec, Next;
    var r := Exec(n, sexes, sched);
    assert sched[..|sched|] == sched;
    k := |sched|;
    if !Inside(r.pc[t]) {
      NotStarted(n, sexes, sched, t);
      var before := sched[..|sched| - 1];
      ExecSnoc(n, sexes, sched);
      EnteredBefore(Exec(n, sexes, before), sexes, sched[|sched| - 1], t);
      k := FinishedWasInside(n, sexes, before, t);
      assert before[..k] == sched[..k];
    }
  }

  lemma NotStarted(n: nat, sexes: seq<Sex>, sched: seq<nat>, t: nat)
    requires t < |sexes| && Exec(n, sexes, sched).pc[t] != WantCheck
    ensures sched != []
  {
  }

  lemma EnteredBefore(r: Room, sexes: seq<Sex>, i: nat, t: nat)
    requires |r.pc| == |sexes| && t < |r.pc|
    requires HasEntered(Next(r, sexes, i).pc[t]) && !Inside(Next(r, sexes, i).pc[t])
    ensures HasEntered(r.pc[t])
  {
  }

  lemma AdmissionStep(r: Room, sexes: seq<Sex>, i: nat, t: nat)
    requires |r.pc| == |sexes| && t < |r.pc|
    requires Admitted(Next(r, sexes, i).pc[t]) || HasEntered(Next(r, sexes, i).pc[t])
    ensures Admitted(r.pc[t]) || HasEntered(r.pc[t])
         || (i == t && r.pc[t] == Check && (r.state == Empty || r.state == Only(sexes[t])))
  {
  }

  /** Nobody is admitted, inside or finished but by a look at state that found it empty or of the
      thread's own sex. */
  lemma {:induction false} EnteredWasAdmitted(n: nat, sexes: seq<Sex>, sched: seq<nat>, t: nat) returns (k: nat)
    requires t < |sexes|
    requires Admitted(Exec(n, sexes, sched).pc[t]) || HasEntered(Exec(n, sexes, sched).pc[t])
    ensures k < |sched| && AdmittedAt(n, sexes, sched, t, k)
  {
    hide Exec, Next;
    NotStarted(n, sexes, sched, t);
    var before, i := sched[..|sched| - 1], sched[|sched| - 1];
    ExecSnoc(n, sexes, sched);
    AdmissionStep(Exec(n, sexes, before), sexes, i, t);
    k := |before|;
    var p := Exec(n, sexes, before).pc[t];
    if Admitted(p) || HasEntered(p) {
      k := EnteredWasAdmitted(n, sexes, before, t);
      assert before[..k] == sched[..k];
    }
  }

  /** A refused thread gives the mutex back and starts over. */
  lemma RefusedTriesAgain(r: Room, sexes: seq<Sex>, t: nat)
    requires |r.pc| == |sexes| && t < |r.pc| && r.mutex > 0 && r.pc[t] == WantCheck
    requires r.state != Empty && r.state != Only(sexes[t])
    ensures Next(Next(Next(r, sexes, t), sexes, t), sexes, t) == r
  {
    var r1 := Next(r, sexes, t);
    var r2 := Next(r1, sexes, t);
    assert r2.pc == r.pc[t := PostRetry];
    assert Next(r2, sexes, t).pc == r.pc;
  }

  /** From every reachable room some continuation lets every thread finish, each of them having
      been inside. */
  lemma EverybodyCanFinish(n: nat, sexes: seq<Sex>, sched: seq<nat>) returns (more: seq<nat>)
    requires n >= 1
    ensures AllDone(Exec(n, sexes, sched + more))
    ensures forall t :: 0 <= t < |sexes| ==> WasInside(n, sexes, sched + more, t)
  {
    RunInv(n, sexes, sched);
    more := FinishFrom(Exec(n, sexes, sched), sexes, n);
    RunConcat(Start(n, |sexes|), sexes, sched, more);
    forall t | 0 <= t < |sexes| ensures WasInside(n, sexes, sched + more, t) {
      var k := FinishedWasInside(n, sexes, sched + more, t);
    }
  }
}
