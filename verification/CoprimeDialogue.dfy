/** The dialogue of src/33.c over two pipes of any capacity: the parent asks for the numbers
    coprime to a random number, the child answers with a length and that many numbers, and with
    the termination mark once it has counted its target.  Every read and write of one int is a
    step of its own, and any schedule of the two processes is a run. */
module CoprimeDialogue {
  import opened Coprimes

  const MARK := -1
  const TARGET := 50

  datatype Parent = Ask | GetLength | GetNumber(i: nat, len: nat) | ParentDone

  datatype Child = GetRequest | Answering(rest: seq<int>, last: bool) | ChildDone

  /** The two pipes and the two processes; asked, frames and partial are what the parent has
      sent, received whole, and received of the frame it is in. */
  datatype World = World(
    toChild: seq<int>, toParent: seq<int>, parent: Parent, child: Child,
    occurrences: nat, asked: nat, frames: seq<seq<int>>, partial: seq<int>)

  /** The k-th random number; rand() % 100 + 1 is at least 1. */
  type Requests = r: nat -> nat | forall k :: r(k) >= 1 witness (k => 1)

  const START := World([], [], Ask, GetRequest, 0, 0, [], [])

  // ---------------------------------------------------------------- the two processes

  function ParentStep(w: World, req: Requests, cap: nat): (r: World) {
    match w.parent
    case Ask =>
      if |w.toChild| >= cap then w
      else w.(toChild := w.toChild + [req(w.asked)], asked := w.asked + 1, parent := GetLength)
    case GetLength =>
      if w.toParent == [] then w
      else
        var len := w.toParent[0];
        var w' := w.(toParent := w.toParent[1..]);
        if len == MARK then w'.(parent := ParentDone)
        else if len <= 0 then w'.(parent := Ask, frames := w.frames + [[]])
        else w'.(parent := GetNumber(0, len), partial := [])
    case GetNumber(i, len) =>
      if w.toParent == [] then w
      else
        var got := w.partial + [w.toParent[0]];
        var w' := w.(toParent := w.toParent[1..]);
        if i + 1 < len then w'.(parent := GetNumber(i + 1, len), partial := got)
        else w'.(parent := Ask, frames := w.frames + [got], partial := [])
    case ParentDone => w
  }

  function Counts(num: nat): (r: bool)
    requires num >= 1
  {
    |Below(num)| == num - 1
  }

  function ChildStep(w: World, cap: nat): (r: World) {
    match w.child
    case GetRequest =>
      if w.toChild == [] || w.toChild[0] < 1 then w
      else
        var num := w.toChild[0];
        var w' := w.(toChild := w.toChild[1..]);
        if w.occurrences == TARGET then w'.(child := Answering([MARK], true))
        else
          w'.(child := Answering([|Below(num)|] + Below(num), false),
              occurrences := if Counts(num) then w.occurrences + 1 else w.occurrences)
    case Answering(rest, last) =>
      if |w.toParent| >= cap || rest == [] then w
      else
        w.(toParent := w.toParent + [rest[0]],
           child := if |rest| > 1 then Answering(rest[1..], last) else if last then ChildDone else GetRequest)
    case ChildDone => w
  }

  /** What the child writes for a request, whether it then ends, and its counter afterwards. */
  ghost function ServeOf(occurrences: nat, num: nat): (r: (seq<int>, bool, nat))
    requires num >= 1
  {
    if occurrences == TARGET then ([MARK], true, occurrences)
    else ([|Below(num)|] + Below(num), false, occurrences + if num == 1 || Prime(num) then 1 else 0)
  }

  /** The child takes n steps in a row. */
  function ChildSteps(w: World, cap: nat, n: nat): (r: World)
    decreases n
  {
    if n == 0 then w else ChildSteps(ChildStep(w, cap), cap, n - 1)
  }

  lemma {:induction false} WritesAll(w: World, cap: nat)
    requires w.child.Answering? && w.child.rest != [] && |w.toParent| + |w.child.rest| <= cap
    ensures ChildSteps(w, cap, |w.child.rest|)
         == w.(toParent := w.toParent + w.child.rest, child := if w.child.last then ChildDone else GetRequest)
    decreases |w.child.rest|
  {
    var w', rest := ChildStep(w, cap), w.child.rest;
    assert rest == [rest[0]] + rest[1..];
    if |rest| > 1 {
      WritesAll(w', cap);
      assert w.toParent + rest == w'.toParent + rest[1..];
    } else {
      assert ChildSteps(w', cap, 0) == w';
    }
  }

  /** A turn of the child's loop is its steps in the dialogue, when the pipe has room. */
  lemma ServeIsSteps(w: World, cap: nat)
    requires w.child == GetRequest && w.toChild != [] && w.toChild[0] >= 1
    ensures var (written, quit, occurrences) := ServeOf(w.occurrences, w.toChild[0]);
      |w.toParent| + |written| <= cap ==>
        ChildSteps(w, cap, 1 + |written|)
        == w.(toChild := w.toChild[1..], toParent := w.toParent + written,
              child := if quit then ChildDone else GetRequest, occurrences := occurrences)
  {
    hide Below, Prime;
    var num := w.toChild[0];
    var (written, quit, occurrences) := ServeOf(w.occurrences, num);
    CountedIffOneOrPrime(num);
    var w1 := ChildStep(w, cap);
    assert w1.child == Answering(written, quit) && w1.occurrences == occurrences;
    if |w.toParent| + |written| <= cap {
      WritesAll(w1, cap);
    }
  }

  /** The child's counter, and one turn of its loop as the source runs it: the ints it writes for
      a request and whether it then ends. */
  class ChildProcessState {
    var occurrences: nat

    constructor ()
      ensures occurrences == 0
    {
      occurrences := 0;
    }

    method Serve(num: nat) returns (written: seq<int>, quit: bool)
      requires num >= 1
      modifies this
      ensures (written, quit, occurrences) == ServeOf(old(occurrences), num)
    {
      if occurrences == TARGET {
        return [MARK], true;
      }
      var coprimes, count := FillCoprimes(num);
      CountedIffOneOrPrime(num);
      if count == num - 1 {
        occurrences := occurrences + 1;
      }
      written := [count];
      for i := 0 to count
        invariant written == [count] + coprimes[..i]
        invariant coprimes[..count] == Below(num)
      {
        written := written + [coprimes[i]];
      }
      quit := false;
    }
  }

  datatype Process = ParentProcess | ChildProcess

  function Step(w: World, who: Process, req: Requests, cap: nat): (r: World) {
    if who == ParentProcess then ParentStep(w, req, cap) else ChildStep(w, cap)
  }

  function Exec(sched: seq<Process>, req: Requests, cap: nat): (r: World) {
    if sched == [] then START
    else Step(Exec(sched[..|sched| - 1], req, cap), sched[|sched| - 1], req, cap)
  }

  // ---------------------------------------------------------------- what should be said

  /** The child's count after k requests. */
  function Counted(k: nat, req: Requests): (r: nat)
    ensures r <= TARGET
  {
    if k == 0 then 0
    else
      var before := Counted(k - 1, req);
      if before < TARGET && Counts(req(k - 1)) then before + 1 else before
  }

  /** The whole answer to the k-th request, as written into the pipe. */
  function Answer(k: nat, req: Requests): (r: seq<int>)
    ensures |r| >= 1
  {
    if Counted(k, req) == TARGET then [MARK] else [|Below(req(k))|] + Below(req(k))
  }

  /** How much of the answer in progress the parent has read. */
  function Consumed(w: World): (r: seq<int>) {
    match w.parent
    case Ask => []
    case GetLength => []
    case GetNumber(_, len) => [len] + w.partial
    case ParentDone => [MARK]
  }

  function Unwritten(w: World): (r: seq<int>) {
    if w.child.Answering? then w.child.rest else []
  }

  /** Every frame received so far is the numbers coprime to its request, and came before the
      child's target was reached. */
  ghost predicate Faithful(w: World, req: Requests) {
    forall k :: 0 <= k < |w.frames| ==> Counted(k, req) < TARGET && w.frames[k] == Below(req(k))
  }

  /** Nothing is out: both pipes empty, the child waiting. */
  ghost predicate Idle(w: World, req: Requests) {
    && w.parent == Ask && w.child == GetRequest
    && w.toChild == [] && w.toParent == [] && w.partial == []
    && w.asked == |w.frames|
    && w.occurrences == Counted(w.asked, req)
  }

  /** The request is in the pipe. */
  ghost predicate Requested(w: World, req: Requests) {
    && w.parent == GetLength && w.child == GetRequest
    && w.asked == |w.frames| + 1
    && w.toChild == [req(w.asked - 1)] && w.toParent == [] && w.partial == []
    && w.occurrences == Counted(w.asked - 1, req)
  }

  /** The answer is split between what the parent has read, the pipe and what is unwritten. */
  ghost predicate Answered(w: World, req: Requests) {
    && w.parent != Ask && w.asked == |w.frames| + 1 && w.toChild == []
    && var answer := Answer(w.asked - 1, req);
    && var last := Counted(w.asked - 1, req) == TARGET;
    && Consumed(w) + (w.toParent + Unwritten(w)) == answer
    && w.occurrences == Counted(w.asked, req)
    && (w.parent == GetLength ==> w.partial == [])
    && (w.parent.GetNumber? ==> |w.partial| == w.parent.i < w.parent.len && !last)
    && (w.parent == ParentDone ==> last)
    && (match w.child
        case GetRequest => !last
        case Answering(rest, l) => rest != [] && l == last
        case ChildDone => last)
  }

  ghost predicate Inv(w: World, req: Requests) {
    Faithful(w, req) && (Idle(w, req) || Requested(w, req) || Answered(w, req))
  }

  // ---------------------------------------------------------------- how much has been done

  /** A request written and read, and every int of its answer written and read. */
  function Cost(k: nat, req: Requests): (r: nat) {
    2 + 2 * |Answer(k, req)|
  }

  function CostTo(k: nat, req: Requests): (r: nat) {
    if k == 0 then 0 else CostTo(k - 1, req) + Cost(k - 1, req)
  }

  /** The steps that the exchange in progress has seen. */
  function Progress(w: World, req: Requests): (r: int) {
    if w.parent == Ask then 0
    else if w.toChild != [] then 1
    else if w.asked == 0 then 0
    else 2 + |Consumed(w)| + |Answer(w.asked - 1, req)| - |Unwritten(w)|
  }

  function Done(w: World, req: Requests): (r: int) {
    CostTo(|w.frames|, req) + Progress(w, req)
  }

  lemma MoveFirst(a: seq<int>, rest: seq<int>)
    requires rest != []
    ensures a + rest == (a + [rest[0]]) + rest[1..]
  {
  }

  /** The child writes one more int. */
  lemma ChildWrites(w: World, req: Requests, cap: nat)
    requires Inv(w, req) && w.child.Answering? && |w.toParent| < cap
    ensures Inv(ChildStep(w, cap), req) && Done(ChildStep(w, cap), req) == Done(w, req) + 1
  {
    hide Answer, Below, Counted, CostTo, Faithful;
    var w' := ChildStep(w, cap);
    MoveFirst(w.toParent, w.child.rest);
    assert w.toParent + Unwritten(w) == w'.toParent + Unwritten(w');
    assert Consumed(w) == Consumed(w');
    FaithfulSame(w, w', req);
  }

  lemma FaithfulSame(w: World, w': World, req: Requests)
    requires Faithful(w, req) && w'.frames == w.frames
    ensures Faithful(w', req)
  {
    hide Below, Counted;
  }

  lemma CountedNext(k: nat, req: Requests)
    ensures Counted(k + 1, req)
         == if Counted(k, req) < TARGET && Counts(req(k)) then Counted(k, req) + 1 else Counted(k, req)
  {
    hide Counts;
  }

  /** The child takes a request and works out the whole answer. */
  lemma ChildReads(w: World, req: Requests, cap: nat)
    requires Inv(w, req) && w.child == GetRequest && w.toChild != []
    ensures Inv(ChildStep(w, cap), req) && Done(ChildStep(w, cap), req) == Done(w, req) + 1
  {
    hide Below, CostTo, Counts, Counted, Faithful;
    var w' := ChildStep(w, cap);
    var k := w.asked - 1;
    CountedNext(k, req);
    assert Requested(w, req) && w.toChild[0] == req(k);
    assert Unwritten(w') == Answer(k, req);
    assert Consumed(w') + (w'.toParent + Unwritten(w')) == Unwritten(w');
    FaithfulSame(w, w', req);
  }

  lemma ParentAsks(w: World, req: Requests, cap: nat)
    requires Inv(w, req) && w.parent == Ask && cap >= 1
    ensures Inv(ParentStep(w, req, cap), req) && Done(ParentStep(w, req, cap), req) == Done(w, req) + 1
  {
    hide Below, CostTo, Counted, Answer, Faithful;
    FaithfulSame(w, ParentStep(w, req, cap), req);
  }

  lemma AnswerHead(k: nat, req: Requests)
    ensures Counted(k, req) == TARGET <==> Answer(k, req)[0] == MARK
    ensures Counted(k, req) < TARGET ==>
      Answer(k, req)[0] == |Answer(k, req)| - 1 && Answer(k, req)[1..] == Below(req(k))
  {
    hide Below, Counted;
  }

  lemma Regroup(head: seq<int>, before: seq<int>, x: int, rest: seq<int>, tail: seq<int>)
    ensures head + before + (([x] + rest) + tail) == head + (before + [x]) + (rest + tail)
    ensures ([x] + rest) + tail == [x] + (rest + tail)
  {
    assert head + before + (([x] + rest) + tail) == head + (before + [x]) + (rest + tail);
  }

  lemma NextIsHead(w: World, req: Requests)
    requires Inv(w, req) && w.parent == GetLength && w.toParent != []
    ensures Faithful(w, req) && Answered(w, req) && w.toParent[0] == Answer(w.asked - 1, req)[0]
    ensures w.toParent + Unwritten(w) == Answer(w.asked - 1, req)
  {
    hide Below, Counted, Answer, Faithful;
    assert Consumed(w) + (w.toParent + Unwritten(w)) == w.toParent + Unwritten(w);
  }

  /** The parent reads a length or the mark. */
  lemma ParentReadsLength(w: World, req: Requests, cap: nat)
    requires Inv(w, req) && w.parent == GetLength && w.toParent != []
    ensures Inv(ParentStep(w, req, cap), req) && Done(ParentStep(w, req, cap), req) == Done(w, req) + 1
  {
    hide Below, Counted, CostTo, Answer, Faithful, Inv, Done;
    NextIsHead(w, req);
    var w' := ParentStep(w, req, cap);
    if w.toParent[0] == MARK || w.toParent[0] > 0 {
      FrameBegins(w, w', req);
    } else {
      EmptyFrame(w, w', w.asked - 1, req);
    }
  }

  lemma FrameBegins(w: World, w': World, req: Requests)
    requires Faithful(w, req) && Answered(w, req) && w.parent == GetLength && w.toParent != []
    requires w.toParent[0] == Answer(w.asked - 1, req)[0]
    requires w.toParent[0] == MARK || w.toParent[0] > 0
    requires w' == if w.toParent[0] == MARK then w.(toParent := w.toParent[1..], parent := ParentDone)
                   else w.(toParent := w.toParent[1..], parent := GetNumber(0, w.toParent[0]), partial := [])
    ensures Inv(w', req) && Done(w', req) == Done(w, req) + 1
  {
    hide Below, Counted, CostTo, Answer, Faithful;
    AnswerHead(w.asked - 1, req);
    assert w.toParent == [w.toParent[0]] + w'.toParent;
    Regroup([], [], w.toParent[0], w'.toParent, Unwritten(w'));
    FaithfulSame(w, w', req);
    assert Consumed(w') == [w.toParent[0]];
  }

  lemma CostToNext(k: nat, req: Requests)
    ensures CostTo(k + 1, req) == CostTo(k, req) + 2 + 2 * |Answer(k, req)|
  {
    hide Answer;
  }

  lemma FaithfulSnoc(w: World, w': World, frame: seq<int>, req: Requests)
    requires Faithful(w, req) && w'.frames == w.frames + [frame]
    requires Counted(|w.frames|, req) < TARGET && frame == Below(req(|w.frames|))
    ensures Faithful(w', req)
  {
    hide Below, Counted;
    forall k | 0 <= k < |w'.frames| ensures Counted(k, req) < TARGET && w'.frames[k] == Below(req(k)) {
      if k < |w.frames| {
        assert w'.frames[k] == w.frames[k];
      }
    }
  }

  /** A complete frame puts the dialogue back into rest. */
  lemma FrameComplete(w: World, w': World, k: nat, frame: seq<int>, req: Requests)
    requires Faithful(w, req) && Answered(w, req) && k == w.asked - 1
    requires |w.toParent| == 1 && Unwritten(w) == []
    requires Counted(k, req) < TARGET && frame == Below(req(k))
    requires w' == w.(toParent := [], parent := Ask, frames := w.frames + [frame], partial := [])
    requires |Consumed(w)| == |Answer(k, req)| - 1
    ensures Inv(w', req) && Done(w', req) == Done(w, req) + 1
  {
    hide Below, Counted, CostTo, Answer, Faithful;
    FaithfulSnoc(w, w', frame, req);
    CostToNext(k, req);
  }

  lemma EmptyFrame(w: World, w': World, k: nat, req: Requests)
    requires Inv(w, req) && w.parent == GetLength && w.toParent != [] && k == w.asked - 1
    requires w.toParent[0] <= 0 && w.toParent[0] != MARK && w.toParent[0] == Answer(k, req)[0]
    requires w' == w.(toParent := w.toParent[1..], parent := Ask, frames := w.frames + [[]])
    ensures Inv(w', req) && Done(w', req) == Done(w, req) + 1
  {
    hide Below, Counted, CostTo, Answer;
    AnswerHead(k, req);
    assert |Answer(k, req)| == 1;
    assert |Consumed(w) + (w.toParent + Unwritten(w))| == 1;
    assert Answer(k, req)[1..] == [];
    FrameComplete(w, w', k, [], req);
  }

  lemma NumberMoves(w: World, req: Requests)
    requires Answered(w, req) && w.parent.GetNumber? && w.toParent != []
    ensures var got := w.partial + [w.toParent[0]];
      && [w.parent.len] + got + (w.toParent[1..] + Unwritten(w)) == Answer(w.asked - 1, req)
      && |Answer(w.asked - 1, req)| == w.parent.len + 1
      && Answer(w.asked - 1, req)[1..] == Below(req(w.asked - 1))
  {
    hide Below, Counted, Answer;
    AnswerHead(w.asked - 1, req);
    assert w.toParent == [w.toParent[0]] + w.toParent[1..];
    Regroup([w.parent.len], w.partial, w.toParent[0], w.toParent[1..], Unwritten(w));
  }

  lemma NumberInside(w: World, w': World, req: Requests)
    requires Faithful(w, req) && Answered(w, req) && w.parent.GetNumber? && w.toParent != []
    requires w.parent.i + 1 < w.parent.len
    requires w' == w.(toParent := w.toParent[1..], parent := GetNumber(w.parent.i + 1, w.parent.len),
                      partial := w.partial + [w.toParent[0]])
    ensures Inv(w', req) && Done(w', req) == Done(w, req) + 1
  {
    hide Below, Counted, CostTo, Answer, Faithful;
    NumberMoves(w, req);
    FaithfulSame(w, w', req);
    assert Consumed(w') == [w.parent.len] + (w.partial + [w.toParent[0]]);
  }

  lemma NumberLast(w: World, w': World, req: Requests)
    requires Faithful(w, req) && Answered(w, req) && w.parent.GetNumber? && w.toParent != []
    requires w.parent.i + 1 == w.parent.len
    requires w' == w.(toParent := w.toParent[1..], parent := Ask,
                      frames := w.frames + [w.partial + [w.toParent[0]]], partial := [])
    ensures Inv(w', req) && Done(w', req) == Done(w, req) + 1
  {
    hide Below, Counted, CostTo, Answer, Faithful, Inv, Done;
    NumberMoves(w, req);
    var got := w.partial + [w.toParent[0]];
    EndOfFrame(w.parent.len, got, w.toParent[1..] + Unwritten(w), Answer(w.asked - 1, req));
    FrameComplete(w, w', w.asked - 1, got, req);
  }

  lemma EndOfFrame(len: int, got: seq<int>, rest: seq<int>, answer: seq<int>)
    requires [len] + got + rest == answer && |got| + 1 == |answer|
    ensures rest == [] && answer[1..] == got
  {
  }

  /** The parent reads one number of a frame. */
  lemma ParentReadsNumber(w: World, req: Requests, cap: nat)
    requires Inv(w, req) && w.parent.GetNumber? && w.toParent != []
    ensures Inv(ParentStep(w, req, cap), req) && Done(ParentStep(w, req, cap), req) == Done(w, req) + 1
  {
    hide Below, Counted, CostTo, Answer, Faithful, Done;
    var w' := ParentStep(w, req, cap);
    if w.parent.i + 1 < w.parent.len {
      NumberInside(w, w', req);
    } else {
      NumberLast(w, w', req);
    }
  }

  lemma StepInv(w: World, who: Process, req: Requests, cap: nat)
    requires cap >= 1 && Inv(w, req)
    ensures Inv(Step(w, who, req, cap), req)
    ensures Done(Step(w, who, req, cap), req) == Done(w, req) + if Step(w, who, req, cap) == w then 0 else 1
  {
    hide Inv, Done;
    if Step(w, who, req, cap) != w {
      match who {
        case ParentProcess =>
          match w.parent {
            case Ask => ParentAsks(w, req, cap);
            case GetLength => ParentReadsLength(w, req, cap);
            case GetNumber(_, _) => ParentReadsNumber(w, req, cap);
            case ParentDone =>
          }
        case ChildProcess =>
          match w.child {
            case GetRequest => ChildReads(w, req, cap);
            case Answering(_, _) => ChildWrites(w, req, cap);
            case ChildDone =>
          }
      }
    }
  }

  // ---------------------------------------------------------------- every run

  function Effective(sched: seq<Process>, req: Requests, cap: nat): (r: nat) {
    if sched == [] then 0
    else
      var before := Exec(sched[..|sched| - 1], req, cap);
      Effective(sched[..|sched| - 1], req, cap)
      + if Step(before, sched[|sched| - 1], req, cap) == before then 0 else 1
  }

  lemma {:induction false} RunInv(sched: seq<Process>, req: Requests, cap: nat)
    requires cap >= 1
    ensures Inv(Exec(sched, req, cap), req)
    ensures Effective(sched, req, cap) == Done(Exec(sched, req, cap), req)
  {
    if sched != [] {
      hide Inv, Done, Step;
      var before := sched[..|sched| - 1];
      RunInv(before, req, cap);
      StepInv(Exec(before, req, cap), sched[|sched| - 1], req, cap);
    }
  }

  /** In every run, whatever the pipes hold: the frames received are the coprimes of the numbers
      asked for, in order; at most one request is out; what the parent takes for a length is
      the mark exactly after the child has counted its target; both end together with empty
      pipes, and until then one of them can move. */
  lemma EveryRun(sched: seq<Process>, req: Requests, cap: nat)
    requires cap >= 1
    ensures var w := Exec(sched, req, cap);
      && Faithful(w, req)
      && |w.frames| <= w.asked <= |w.frames| + 1 && |w.toChild| <= 1
      && (w.parent == GetLength && w.toParent != [] ==> (w.toParent[0] == -1 <==> Counted(|w.frames|, req) == 50))
      && (w.parent == ParentDone ==> w.child == ChildDone && w.toChild == [] && w.toParent == [])
      && (w.child == ChildDone ==> w.asked == |w.frames| + 1 && Counted(|w.frames|, req) == 50)
      && (w.parent != ParentDone ==> exists who :: Step(w, who, req, cap) != w)
  {
    RunInv(sched, req, cap);
    InvTells(Exec(sched, req, cap), req, cap);
  }

  lemma InvTells(w: World, req: Requests, cap: nat)
    requires cap >= 1 && Inv(w, req)
    ensures Faithful(w, req)
    ensures |w.frames| <= w.asked <= |w.frames| + 1 && |w.toChild| <= 1
    ensures w.parent == GetLength && w.toParent != [] ==> (w.toParent[0] == MARK <==> Counted(|w.frames|, req) == TARGET)
    ensures w.parent == ParentDone ==> w.child == ChildDone && w.toChild == [] && w.toParent == []
    ensures w.child == ChildDone ==> w.asked == |w.frames| + 1 && Counted(|w.frames|, req) == TARGET
    ensures w.parent != ParentDone ==> exists who :: Step(w, who, req, cap) != w
  {
    hide Below, Counted, Answer, Step, Faithful;
    if w.parent == GetLength && w.toParent != [] {
      NextIsHead(w, req);
      AnswerHead(w.asked - 1, req);
    }
    if w.parent == ParentDone {
      MarkIsAll(w, req);
    } else {
      var who := CanMove(w, req, cap);
    }
  }

  lemma MarkIsAll(w: World, req: Requests)
    requires Answered(w, req) && w.parent == ParentDone
    ensures w.toParent == [] && Unwritten(w) == [] && w.child == ChildDone
  {
    hide Below, Counted;
    AnswerMark(w.asked - 1, req);
    assert |Consumed(w) + (w.toParent + Unwritten(w))| == 1;
  }

  /** While the parent waits at an empty pipe the child has something left to write. */
  lemma ChildStillWrites(w: World, req: Requests)
    requires Answered(w, req) && w.parent != ParentDone && w.toParent == []
    ensures w.child.Answering?
  {
    hide Below, Counted, Answer;
    AnswerHead(w.asked - 1, req);
    assert |Consumed(w) + (w.toParent + Unwritten(w))| == |Consumed(w)| + |Unwritten(w)|;
  }

  lemma CanMove(w: World, req: Requests, cap: nat) returns (who: Process)
    requires cap >= 1 && Inv(w, req) && w.parent != ParentDone
    ensures Step(w, who, req, cap) != w
  {
    hide Below, Counted, Faithful, Answer;
    if w.parent == Ask {
      who := ParentProcess;
      assert ParentStep(w, req, cap).parent == GetLength;
    } else if w.toChild != [] {
      who := ChildProcess;
      assert |ChildStep(w, cap).toChild| < |w.toChild|;
    } else if w.toParent != [] {
      who := ParentProcess;
      assert |ParentStep(w, req, cap).toParent| < |w.toParent|;
    } else {
      who := ChildProcess;
      ChildStillWrites(w, req);
      assert |ChildStep(w, cap).toParent| > 0;
    }
  }

  // ---------------------------------------------------------------- when it ends

  /** How many of the first k numbers are 1 or prime. */
  function Primes(k: nat, req: Requests): (r: nat) {
    if k == 0 then 0 else Primes(k - 1, req) + if Counts(req(k - 1)) then 1 else 0
  }

  lemma {:induction false} CountedIsPrimes(k: nat, req: Requests)
    ensures Counted(k, req) == if Primes(k, req) < TARGET then Primes(k, req) else TARGET
  {
    hide Counts;
    if k > 0 {
      CountedIsPrimes(k - 1, req);
    }
  }

  lemma {:induction false} CostGrows(j: nat, k: nat, req: Requests)
    requires j <= k
    ensures CostTo(j, req) <= CostTo(k, req)
    ensures j < k ==> CostTo(j, req) + Cost(j, req) <= CostTo(k, req)
  {
    hide Cost;
    if j < k {
      CostGrows(j, k - 1, req);
    }
  }

  /** When the target is first reached after k numbers, every run ends after exactly the steps
      of k frames and the mark: no run is longer, and one that is shorter is not over. */
  lemma RunsEnd(sched: seq<Process>, req: Requests, cap: nat, k: nat)
    requires cap >= 1
    requires Primes(k, req) >= 50 && forall j :: 0 <= j < k ==> Primes(j, req) < 50
    ensures Effective(sched, req, cap) <= CostTo(k + 1, req)
    ensures Effective(sched, req, cap) == CostTo(k + 1, req)
       <==> Exec(sched, req, cap).parent == ParentDone && Exec(sched, req, cap).child == ChildDone
    ensures Exec(sched, req, cap).parent == ParentDone ==> |Exec(sched, req, cap).frames| == k
  {
    hide Counts, Counted, Primes, Below, Answer, Exec, Step, Inv, Progress, CostTo, Cost;
    var w := Exec(sched, req, cap);
    RunInv(sched, req, cap);
    EveryRun(sched, req, cap);
    InvFaithful(w, req);
    FirstReached(|w.frames|, w, req, k);
    CostGrows(|w.frames|, k + 1, req);
    CostGrows(|w.frames|, k, req);
    CostGrows(k, k + 1, req);
    CostPositive(k, req);
    ProgressBound(w, req);
  }

  lemma InvFaithful(w: World, req: Requests)
    requires Inv(w, req)
    ensures Faithful(w, req)
  {
  }

  lemma CostPositive(k: nat, req: Requests)
    ensures Cost(k, req) > 0 && CostTo(k + 1, req) == CostTo(k, req) + Cost(k, req)
  {
    hide Answer;
  }

  lemma FirstReached(n: nat, w: World, req: Requests, k: nat)
    requires Faithful(w, req) && n == |w.frames|
    requires Primes(k, req) >= TARGET && forall j :: 0 <= j < k ==> Primes(j, req) < TARGET
    ensures n <= k
    ensures Counted(n, req) == TARGET <==> n == k
  {
    hide Primes, Counted, Below;
    CountedIsPrimes(k, req);
    CountedIsPrimes(n, req);
  }

  /** The exchange in progress never takes more than its cost, and all of it only at the end. */
  lemma ProgressBound(w: World, req: Requests)
    requires Inv(w, req)
    ensures 0 <= Progress(w, req) <= Cost(|w.frames|, req)
    ensures Progress(w, req) == Cost(|w.frames|, req) <==> w.parent == ParentDone && w.child == ChildDone
  {
    hide Below, Counted, Faithful, Answer;
    if Answered(w, req) {
      assert |Consumed(w) + (w.toParent + Unwritten(w))| == |Answer(w.asked - 1, req)|;
      if w.parent == ParentDone {
        AnswerHead(w.asked - 1, req);
        AnswerMark(w.asked - 1, req);
      } else {
        AnswerHead(w.asked - 1, req);
      }
    }
  }

  lemma AnswerMark(k: nat, req: Requests)
    requires Counted(k, req) == TARGET
    ensures Answer(k, req) == [MARK]
  {
  }
}
