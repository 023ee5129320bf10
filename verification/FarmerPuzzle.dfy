/** One client's wolf-goat-cabbage session of src/53_server.c: the marks of the two sides, the
    commands, and the reply texts; and the puzzle those marks stand for. */
module FarmerPuzzle {

  /** left[i] and right[i], 0 = farmer, 1 = wolf, 2 = goat, 3 = cabbage; a mark of 2 is in the boat. */
  datatype Session = Session(left: seq<int>, right: seq<int>)

  const FRESH := Session([1, 1, 1, 1], [0, 0, 0, 0])

  predicate Sized(s: Session) {
    |s.left| == 4 && |s.right| == 4
  }

  // ---------------------------------------------------------------- the code on marks

  /** The side of the boat: 0 = left, 1 = right. */
  function Boat(s: Session): (r: int)
    requires Sized(s)
  {
    if s.left[0] != 0 then 0 else 1
  }

  function CarriedFrom(s: Session, i: nat): (r: int)
    requires Sized(s) && i <= 4
    ensures r == -1 || i <= r < 4
    decreases 4 - i
  {
    if i == 4 then -1 else if s.left[i] == 2 || s.right[i] == 2 then i else CarriedFrom(s, i + 1)
  }

  /** The first item with a mark of 2, or -1. */
  function Carry(s: Session): (r: int)
    requires Sized(s)
    ensures r == -1 || 1 <= r < 4
  {
    CarriedFrom(s, 1)
  }

  const LETTERS := ['F', 'W', 'G', 'C']

  function Letters(marks: seq<bool>, i: nat): (r: string)
    requires i <= |marks| == 4
    decreases 4 - i
  {
    if i == 4 then [] else (if marks[i] then [LETTERS[i], ' '] else []) + Letters(marks, i + 1)
  }

  function Text(left: seq<bool>, right: seq<bool>, boat: seq<bool>, side: int): (r: string)
    requires |left| == |right| == |boat| == 4
  {
    "Left: " + Letters(left, 0) + ", Right: " + Letters(right, 0) + ", Boat: " + Letters(boat, 0)
    + ", BoatSide: " + if side == 0 then "left" else "right"
  }

  function FormatState(s: Session): (r: string)
    requires Sized(s)
  {
    Text(seq(4, i requires 0 <= i < 4 => s.left[i] == 1),
         seq(4, i requires 0 <= i < 4 => s.right[i] == 1),
         seq(4, i requires 0 <= i < 4 => s.left[i] == 2 || s.right[i] == 2),
         Boat(s))
  }

  /** The message that ends a session. */
  const ESCAPE := [27 as char]

  datatype RawCommand = Take(item: nat) | Put | Move | Unknown

  type Command = c: RawCommand | c.Take? ==> 1 <= c.item < 4 witness Put

  function Parse(command: string): (r: Command) {
    if command == "takegoat" || command == "takewolf" || command == "takecabbage" then
      Take(if command[4] == 'g' then 2 else if command[4] == 'w' then 1 else 3)
    else if command == "put" then Put
    else if command == "move" then Move
    else Unknown
  }

  /** What the items are called, in the order of the marks. */
  const NAMES: seq<string> := ["wolf", "goat", "cabbage"]

  /** Which text is which command; every other text is unknown. */
  lemma ParseExactly(command: string)
    ensures forall i: nat :: 1 <= i <= 3 ==> (Parse(command) == Take(i) <==> command == "take" + NAMES[i - 1])
    ensures Parse(command) == Put <==> command == "put"
    ensures Parse(command) == Move <==> command == "move"
    ensures Parse(command) == Unknown <==>
      command !in {"put", "move", "take" + NAMES[0], "take" + NAMES[1], "take" + NAMES[2]}
  {
    assert "take" + NAMES[0] == "takewolf";
    assert "take" + NAMES[1] == "takegoat";
    assert "take" + NAMES[2] == "takecabbage";
  }

  /** The status a command sets; 0 when it leaves msg.status alone. */
  function TakeItem(s: Session, item: nat): (r: (Session, int))
    requires Sized(s) && 1 <= item < 4
  {
    if Carry(s) != -1 then (s, 1)
    else if Boat(s) == 0 && s.left[item] == 1 then (s.(left := s.left[item := 2]), 0)
    else if Boat(s) == 1 && s.right[item] == 1 then (s.(right := s.right[item := 2]), 0)
    else (s, 2)
  }

  function PutItem(s: Session): (r: (Session, int))
    requires Sized(s)
  {
    var c := Carry(s);
    if c == -1 then (s, 3)
    else if Boat(s) == 0 then (Session(s.left[c := 1], s.right[c := 0]), 0)
    else (Session(s.left[c := 0], s.right[c := 1]), 0)
  }

  function Verdict(s: Session): (r: int)
    requires Sized(s)
  {
    if s.left[0] == 0 && s.left[1] == 1 && s.left[2] == 1 then 4
    else if s.left[0] == 0 && s.left[2] == 1 && s.left[3] == 1 then 5
    else if s.right[0] == 0 && s.right[1] == 1 && s.right[2] == 1 then 6
    else if s.right[0] == 0 && s.right[2] == 1 && s.right[3] == 1 then 7
    else 0
  }

  function MoveBoat(s: Session): (r: (Session, int))
    requires Sized(s)
  {
    var s' := if Boat(s) == 0 then Session(s.left[0 := 0], s.right[0 := 1])
              else Session(s.left[0 := 1], s.right[0 := 0]);
    (s', Verdict(s'))
  }

  function Apply(s: Session, c: Command): (r: (Session, int))
    requires Sized(s)
    ensures Sized(r.0)
  {
    match c
    case Take(item) => TakeItem(s, item)
    case Put => PutItem(s)
    case Move => MoveBoat(s)
    case Unknown => (s, -1)
  }

  function ErrorText(code: int): (r: string) {
    match code
    case 1 => "Boat not empty"
    case 2 => "Item not on this side"
    case 3 => "Boat empty"
    case 4 => "Wolf eats goat left"
    case 5 => "Goat eats cabbage left"
    case 6 => "Wolf eats goat right"
    case 7 => "Goat eats cabbage right"
    case _ => "Invalid command"
  }

  /** What the client reads: the status set, 0 for none, and the text. */
  datatype Reply = Reply(code: int, text: string)

  function ReplyTo(after: Session, code: int): (r: Reply)
    requires Sized(after)
  {
    Reply(code, if code == 0 then FormatState(after) else ErrorText(code))
  }

  // ---------------------------------------------------------------- what the marks stand for

  datatype Side = Left | Right

  datatype Place = Bank(side: Side) | Boat

  datatype Puzzle = Puzzle(farmer: Side, items: seq<Place>)

  const START := Puzzle(Left, [Bank(Left), Bank(Left), Bank(Left)])

  function Other(side: Side): Side {
    if side == Left then Right else Left
  }

  /** The farmer on one side, every item with one nonzero mark, at most one item in the boat. */
  ghost predicate Marked(s: Session) {
    && Sized(s)
    && ((s.left[0] == 1 && s.right[0] == 0) || (s.left[0] == 0 && s.right[0] == 1))
    && (forall i :: 1 <= i < 4 ==>
          (s.left[i] in {1, 2} && s.right[i] == 0) || (s.left[i] == 0 && s.right[i] in {1, 2}))
    && (forall i, j :: 1 <= i < j < 4 ==>
          !((s.left[i] == 2 || s.right[i] == 2) && (s.left[j] == 2 || s.right[j] == 2)))
  }

  function PlaceOf(s: Session, i: nat): (r: Place)
    requires Sized(s) && i < 4
  {
    if s.left[i] == 2 || s.right[i] == 2 then Place.Boat
    else if s.left[i] == 1 then Bank(Left) else Bank(Right)
  }

  function View(s: Session): (r: Puzzle)
    requires Sized(s)
  {
    Puzzle(if s.left[0] == 1 then Left else Right, [PlaceOf(s, 1), PlaceOf(s, 2), PlaceOf(s, 3)])
  }

  predicate Proper(p: Puzzle) {
    && |p.items| == 3
    && !(p.items[0].Boat? && p.items[1].Boat?)
    && !(p.items[0].Boat? && p.items[2].Boat?)
    && !(p.items[1].Boat? && p.items[2].Boat?)
  }

  function Cargo(p: Puzzle): (r: int)
    requires Proper(p)
    ensures -1 <= r < 3
    ensures r >= 0 ==> p.items[r].Boat?
    ensures r == -1 ==> forall i :: 0 <= i < 3 ==> !p.items[i].Boat?
  {
    if p.items[0].Boat? then 0 else if p.items[1].Boat? then 1 else if p.items[2].Boat? then 2 else -1
  }

  function On(p: Puzzle, side: Side): (r: seq<bool>)
    requires Proper(p)
    ensures |r| == 4
  {
    [p.farmer == side, p.items[0] == Bank(side), p.items[1] == Bank(side), p.items[2] == Bank(side)]
  }

  function Aboard(p: Puzzle): (r: seq<bool>)
    requires Proper(p)
    ensures |r| == 4
  {
    [false, p.items[0].Boat?, p.items[1].Boat?, p.items[2].Boat?]
  }

  function Describe(p: Puzzle): (r: string)
    requires Proper(p)
  {
    Text(On(p, Left), On(p, Right), Aboard(p), if p.farmer == Left then 0 else 1)
  }

  /** Wolf with goat or goat with cabbage on the bank without the farmer. */
  predicate Unsafe(p: Puzzle)
    requires Proper(p)
  {
    var away := Bank(Other(p.farmer));
    p.items[1] == away && (p.items[0] == away || p.items[2] == away)
  }

  function Casualty(p: Puzzle): (r: int)
    requires Proper(p)
  {
    (if p.farmer == Left then 6 else 4) + if p.items[0] == p.items[1] then 0 else 1
  }

  /** The rules of the puzzle, without marks. */
  function Play(p: Puzzle, c: Command): (r: (Puzzle, int))
    requires Proper(p)
    ensures Proper(r.0)
  {
    match c
    case Take(item) =>
      if Cargo(p) != -1 then (p, 1)
      else if p.items[item - 1] == Bank(p.farmer) then (p.(items := p.items[item - 1 := Place.Boat]), 0)
      else (p, 2)
    case Put =>
      if Cargo(p) == -1 then (p, 3) else (p.(items := p.items[Cargo(p) := Bank(p.farmer)]), 0)
    case Move =>
      var p' := p.(farmer := Other(p.farmer));
      (p', if Unsafe(p') then Casualty(p') else 0)
    case Unknown => (p, -1)
  }

  function Answer(after: Puzzle, code: int): (r: Reply)
    requires Proper(after)
  {
    Reply(code, if code == 0 then Describe(after) else ErrorText(code))
  }

  // ---------------------------------------------------------------- the marks follow the rules

  lemma ViewIsProper(s: Session)
    requires Marked(s)
    ensures Proper(View(s))
    ensures Boat(s) == if View(s).farmer == Left then 0 else 1
    ensures Carry(s) == if Cargo(View(s)) == -1 then -1 else Cargo(View(s)) + 1
  {
    assert CarriedFrom(s, 4) == -1;
    assert CarriedFrom(s, 3) == if View(s).items[2].Boat? then 3 else -1;
  }

  lemma FormatIsDescribe(s: Session)
    requires Marked(s)
    ensures Proper(View(s)) && FormatState(s) == Describe(View(s))
  {
    ViewIsProper(s);
    var p := View(s);
    assert seq(4, i requires 0 <= i < 4 => s.left[i] == 1) == On(p, Left);
    assert seq(4, i requires 0 <= i < 4 => s.right[i] == 1) == On(p, Right);
    assert seq(4, i requires 0 <= i < 4 => s.left[i] == 2 || s.right[i] == 2)
        == Aboard(p);
  }

  lemma TakeFollows(s: Session, item: nat)
    requires Marked(s) && 1 <= item < 4
    ensures Proper(View(s))
    ensures Marked(TakeItem(s, item).0)
    ensures (View(TakeItem(s, item).0), TakeItem(s, item).1) == Play(View(s), Take(item))
  {
    ViewIsProper(s);
    assert View(TakeItem(s, item).0).items == Play(View(s), Take(item)).0.items;
  }

  lemma PutFollows(s: Session)
    requires Marked(s)
    ensures Proper(View(s))
    ensures Marked(PutItem(s).0)
    ensures (View(PutItem(s).0), PutItem(s).1) == Play(View(s), Put)
  {
    ViewIsProper(s);
    assert View(PutItem(s).0).items == Play(View(s), Put).0.items;
  }

  lemma MoveFollows(s: Session)
    requires Marked(s)
    ensures Proper(View(s))
    ensures Marked(MoveBoat(s).0)
    ensures (View(MoveBoat(s).0), MoveBoat(s).1) == Play(View(s), Move)
  {
    ViewIsProper(s);
    assert View(MoveBoat(s).0).items == View(s).items;
  }

  /** Every command does on the marks what the rules say, with the rules' reply, and keeps the
      marks in order: the side that a carried item's mark is stored on cannot be observed. */
  lemma MarksFollowRules(s: Session, c: Command)
    requires Marked(s)
    ensures Marked(Apply(s, c).0) && Proper(View(s))
    ensures (View(Apply(s, c).0), Apply(s, c).1) == Play(View(s), c)
  {
    match c {
      case Take(item) => TakeFollows(s, item);
      case Put => PutFollows(s);
      case Move => MoveFollows(s);
      case Unknown => ViewIsProper(s);
    }
  }

  // ---------------------------------------------------------------- command sequences

  /** The session after a sequence of commands. */
  function After(s: Session, commands: seq<Command>): (r: Session)
    requires Sized(s)
    ensures Sized(r)
  {
    if commands == [] then s else Apply(After(s, commands[..|commands| - 1]), commands[|commands| - 1]).0
  }

  function Replies(s: Session, commands: seq<Command>): (r: seq<Reply>)
    requires Sized(s)
    ensures |r| == |commands|
  {
    if commands == [] then []
    else
      var before := commands[..|commands| - 1];
      var (after, code) := Apply(After(s, before), commands[|commands| - 1]);
      Replies(s, before) + [ReplyTo(after, code)]
  }

  function Played(p: Puzzle, commands: seq<Command>): (r: Puzzle)
    requires Proper(p)
    ensures Proper(r)
  {
    if commands == [] then p else Play(Played(p, commands[..|commands| - 1]), commands[|commands| - 1]).0
  }

  function Answers(p: Puzzle, commands: seq<Command>): (r: seq<Reply>)
    requires Proper(p)
    ensures |r| == |commands|
  {
    if commands == [] then []
    else
      var before := commands[..|commands| - 1];
      var (after, code) := Play(Played(p, before), commands[|commands| - 1]);
      Answers(p, before) + [Answer(after, code)]
  }

  lemma ReplyIsAnswer(s: Session, c: Command)
    requires Marked(s)
    ensures Marked(Apply(s, c).0) && Proper(View(s)) && View(Apply(s, c).0) == Play(View(s), c).0
    ensures ReplyTo(Apply(s, c).0, Apply(s, c).1) == Answer(Play(View(s), c).0, Play(View(s), c).1)
  {
    MarksFollowRules(s, c);
    FormatIsDescribe(Apply(s, c).0);
  }

  lemma {:induction false} RunFollowsRules(s: Session, commands: seq<Command>)
    requires Marked(s)
    ensures Proper(View(s)) && Marked(After(s, commands))
    ensures View(After(s, commands)) == Played(View(s), commands)
    ensures Replies(s, commands) == Answers(View(s), commands)
  {
    if commands == [] {
      ViewIsProper(s);
    } else {
      var before := commands[..|commands| - 1];
      RunFollowsRules(s, before);
      ReplyIsAnswer(After(s, before), commands[|commands| - 1]);
    }
  }

  // ---------------------------------------------------------------- what a reply text tells

  lemma FirstComma(a: string, b: string, x: string, y: string)
    requires ',' !in a && ',' !in b
    requires a + [','] + x == b + [','] + y
    ensures a == b && x == y
  {
    var u, v := a + [','] + x, b + [','] + y;
    assert u[|a|] == ',' && v[|b|] == ',';
    assert a == u[..|a|] && b == v[..|b|] && x == u[|a| + 1..] && y == v[|b| + 1..];
  }

  /** The letters shown tell the marks shown. */
  lemma {:induction false} LettersTell(m: seq<bool>, i: nat, k: nat)
    requires |m| == 4 && i <= 4 && k < 4
    ensures ',' !in Letters(m, i)
    ensures LETTERS[k] in Letters(m, i) <==> i <= k && m[k]
    decreases 4 - i
  {
    if i < 4 {
      LettersTell(m, i + 1, k);
    }
  }

  lemma SameLetters(m: seq<bool>, m': seq<bool>)
    requires |m| == |m'| == 4 && Letters(m, 0) == Letters(m', 0)
    ensures m == m'
  {
    forall k | 0 <= k < 4 ensures m[k] == m'[k] {
      LettersTell(m, 0, k);
      LettersTell(m', 0, k);
    }
  }

  lemma NoComma(m: seq<bool>)
    requires |m| == 4
    ensures ',' !in Letters(m, 0)
  {
    LettersTell(m, 0, 0);
  }

  lemma TextTells(l: seq<bool>, r: seq<bool>, b: seq<bool>, side: int,
                  l': seq<bool>, r': seq<bool>, b': seq<bool>, side': int)
    requires |l| == |r| == |b| == |l'| == |r'| == |b'| == 4
    requires Text(l, r, b, side) == Text(l', r', b', side')
    ensures l == l' && r == r' && b == b'
  {
    var e, e' := if side == 0 then "left" else "right", if side' == 0 then "left" else "right";
    NoComma(l); NoComma(r); NoComma(b); NoComma(l'); NoComma(r'); NoComma(b');
    TextParts(Letters(l, 0), Letters(r, 0), Letters(b, 0), e, Letters(l', 0), Letters(r', 0), Letters(b', 0), e');
    SameLetters(l, l');
    SameLetters(r, r');
    SameLetters(b, b');
  }

  lemma TextParts(l: string, r: string, b: string, e: string, l': string, r': string, b': string, e': string)
    requires ',' !in l && ',' !in r && ',' !in b && ',' !in l' && ',' !in r' && ',' !in b'
    requires "Left: " + l + ", Right: " + r + ", Boat: " + b + ", BoatSide: " + e
          == "Left: " + l' + ", Right: " + r' + ", Boat: " + b' + ", BoatSide: " + e'
    ensures l == l' && r == r' && b == b'
  {
    TextSplits(l, r, b, e);
    TextSplits(l', r', b', e');
    FirstComma("Left: " + l, "Left: " + l', AfterLeft(r, b, e), AfterLeft(r', b', e'));
    FirstComma(" Right: " + r, " Right: " + r', AfterRight(b, e), AfterRight(b', e'));
    FirstComma(" Boat: " + b, " Boat: " + b', " BoatSide: " + e, " BoatSide: " + e');
    assert ("Left: " + l)[6..] == l && ("Left: " + l')[6..] == l';
    assert (" Right: " + r)[8..] == r && (" Right: " + r')[8..] == r';
    assert (" Boat: " + b)[7..] == b && (" Boat: " + b')[7..] == b';
  }

  function AfterRight(b: string, e: string): (r: string) {
    " Boat: " + b + [','] + (" BoatSide: " + e)
  }

  function AfterLeft(r: string, b: string, e: string): (t: string) {
    " Right: " + r + [','] + AfterRight(b, e)
  }

  lemma TextSplits(l: string, r: string, b: string, e: string)
    ensures "Left: " + l + ", Right: " + r + ", Boat: " + b + ", BoatSide: " + e
         == "Left: " + l + [','] + AfterLeft(r, b, e)
  {
    assert ", Right: " == [','] + " Right: " && ", Boat: " == [','] + " Boat: " && ", BoatSide: " == [','] + " BoatSide: ";
  }

  lemma MarksTell(p: Puzzle, q: Puzzle)
    requires Proper(p) && Proper(q) && On(p, Left) == On(q, Left) && On(p, Right) == On(q, Right)
    ensures p == q
  {
    assert On(p, Left)[0] == On(q, Left)[0];
    forall i | 0 <= i < 3 ensures p.items[i] == q.items[i] {
      assert On(p, Left)[i + 1] == On(q, Left)[i + 1] && On(p, Right)[i + 1] == On(q, Right)[i + 1];
    }
    assert p.items == q.items;
  }

  /** Different puzzles are described differently. */
  lemma DescribeTells(p: Puzzle, q: Puzzle)
    requires Proper(p) && Proper(q)
    ensures Describe(p) == Describe(q) <==> p == q
  {
    if Describe(p) == Describe(q) {
      TextTells(On(p, Left), On(p, Right), Aboard(p), if p.farmer == Left then 0 else 1,
                On(q, Left), On(q, Right), Aboard(q), if q.farmer == Left then 0 else 1);
      MarksTell(p, q);
    }
  }

  // ---------------------------------------------------------------- observational equivalence

  lemma PlayOne(p: Puzzle, a: Command)
    requires Proper(p)
    ensures var one := Play(p, a); Played(p, [a]) == one.0 && Answers(p, [a]) == [Answer(one.0, one.1)]
  {
    assert [a][..0] == [];
  }

  lemma PlayTwo(p: Puzzle, a: Command, b: Command)
    requires Proper(p)
    ensures var one := Play(p, a); var two := Play(one.0, b);
      Answers(p, [a, b]) == [Answer(one.0, one.1), Answer(two.0, two.1)]
  {
    assert [a, b][..1] == [a];
    PlayOne(p, a);
  }

  /** A command, or two, whose replies tell two different puzzles apart. */
  function Probe(p: Puzzle, q: Puzzle): (r: seq<Command>)
    requires Proper(p) && Proper(q)
  {
    if Cargo(p) == -1 && Cargo(q) == -1 then
      if p.items[0] == Bank(p.farmer) || q.items[0] == Bank(q.farmer) then [Take(1)]
      else if p.items[1] == Bank(p.farmer) || q.items[1] == Bank(q.farmer) then [Take(2)]
      else if p.items[2] == Bank(p.farmer) || q.items[2] == Bank(q.farmer) then [Take(3)]
      else [Move]
    else if Play(p, Put).0 != Play(q, Put).0 || Cargo(p) == -1 || Cargo(q) == -1 then [Put]
    else [Move, Put]
  }

  lemma DifferentAnswers(p: Puzzle, m: int, q: Puzzle, n: int)
    requires Proper(p) && Proper(q) && (m != n || (m == 0 && p != q))
    ensures Answer(p, m) != Answer(q, n)
  {
    DescribeTells(p, q);
  }

  lemma ProbeTells(p: Puzzle, q: Puzzle)
    requires Proper(p) && Proper(q) && p != q
    ensures Answers(p, Probe(p, q)) != Answers(q, Probe(p, q))
  {
    if |Probe(p, q)| == 1 {
      var a := Probe(p, q)[0];
      PlayOne(p, a);
      PlayOne(q, a);
      OneCommandTells(p, q);
      DifferentAnswers(Play(p, a).0, Play(p, a).1, Play(q, a).0, Play(q, a).1);
    } else {
      PlayTwo(p, Move, Put);
      PlayTwo(q, Move, Put);
      var p', q' := Play(p, Move).0, Play(q, Move).0;
      SamePutDiffers(p, q);
      DifferentAnswers(Play(p', Put).0, 0, Play(q', Put).0, 0);
    }
  }

  lemma OneCommandTells(p: Puzzle, q: Puzzle)
    requires Proper(p) && Proper(q) && p != q && |Probe(p, q)| == 1
    ensures var c := Probe(p, q)[0];
      Play(p, c).1 != Play(q, c).1 || (Play(p, c).1 == 0 && Play(p, c).0 != Play(q, c).0)
  {
    assert p.items == [p.items[0], p.items[1], p.items[2]] && q.items == [q.items[0], q.items[1], q.items[2]];
  }

  lemma SamePutDiffers(p: Puzzle, q: Puzzle)
    requires Proper(p) && Proper(q) && p != q && Cargo(p) != -1 && Cargo(q) != -1
    requires Play(p, Put).0 == Play(q, Put).0
    ensures var p', q' := Play(p, Move).0, Play(q, Move).0;
      Cargo(p') != -1 && Cargo(q') != -1 && Play(p', Put).0 != Play(q', Put).0
  {
    var i, j := Cargo(p), Cargo(q);
    var p', q' := Play(p, Move).0, Play(q, Move).0;
    assert p.items == Play(p, Put).0.items[i := Place.Boat];
    assert q.items == Play(q, Put).0.items[j := Place.Boat];
    assert i != j;
    assert Cargo(p') == i && Cargo(q') == j;
    assert Play(p', Put).0.items[i] == Bank(p'.farmer);
    assert Play(q', Put).0.items[i] == Play(q, Put).0.items[i] == Bank(p.farmer);
  }

  /** Two sessions answer every further command sequence alike exactly when their formatted
      states are the same text. */
  lemma SameTextSameBehaviour(s: Session, t: Session)
    requires Marked(s) && Marked(t)
    ensures FormatState(s) == FormatState(t) <==> forall commands :: Replies(s, commands) == Replies(t, commands)
  {
    FormatIsDescribe(s);
    FormatIsDescribe(t);
    DescribeTells(View(s), View(t));
    if View(s) == View(t) {
      forall commands ensures Replies(s, commands) == Replies(t, commands) {
        RunFollowsRules(s, commands);
        RunFollowsRules(t, commands);
      }
    } else {
      var probe := Probe(View(s), View(t));
      RunFollowsRules(s, probe);
      RunFollowsRules(t, probe);
      ProbeTells(View(s), View(t));
    }
  }

  // ---------------------------------------------------------------- what the client reads, literally

  function ReplyOf(s: Session, c: Command): (r: Reply)
    requires Sized(s)
  {
    ReplyTo(Apply(s, c).0, Apply(s, c).1)
  }

  /** The eight error replies, each in a state that brings it about. */
  lemma ErrorsRead()
    ensures ReplyOf(Session([1, 2, 1, 1], [0, 0, 0, 0]), Take(2)) == Reply(1, "Boat not empty")
    ensures ReplyOf(Session([0, 1, 0, 1], [1, 0, 1, 0]), Take(1)) == Reply(2, "Item not on this side")
    ensures ReplyOf(FRESH, Put) == Reply(3, "Boat empty")
    ensures ReplyOf(FRESH, Move) == Reply(4, "Wolf eats goat left")
    ensures ReplyOf(Session([1, 2, 1, 1], [0, 0, 0, 0]), Move) == Reply(5, "Goat eats cabbage left")
    ensures ReplyOf(Session([0, 0, 0, 1], [1, 1, 1, 0]), Move) == Reply(6, "Wolf eats goat right")
    ensures ReplyOf(Session([0, 1, 0, 0], [1, 0, 1, 1]), Move) == Reply(7, "Goat eats cabbage right")
    ensures ReplyOf(FRESH, Unknown) == Reply(-1, "Invalid command")
  {
    hide FormatState;
  }

  /** The letters of the sides and of the boat. */
  lemma LettersAre(b0: bool, b1: bool, b2: bool, b3: bool)
    ensures Letters([b0, b1, b2, b3], 0)
         == (if b0 then "F " else "") + ((if b1 then "W " else "") + ((if b2 then "G " else "") + (if b3 then "C " else "")))
  {
    var marks := [b0, b1, b2, b3];
    assert Letters(marks, 4) == [];
    assert Letters(marks, 3) == if b3 then "C " else "";
    assert Letters(marks, 2) == (if b2 then "G " else "") + Letters(marks, 3);
    assert Letters(marks, 1) == (if b1 then "W " else "") + Letters(marks, 2);
  }

  /** The letters of the items that are at a place. */
  function Who(p: Puzzle, place: Place): (r: string)
    requires Proper(p)
  {
    (if p.items[0] == place then "W " else "")
    + ((if p.items[1] == place then "G " else "") + (if p.items[2] == place then "C " else ""))
  }

  lemma OnReads(p: Puzzle, side: Side)
    requires Proper(p)
    ensures Letters(On(p, side), 0) == (if p.farmer == side then "F " else "") + Who(p, Bank(side))
  {
    hide Letters;
    LettersAre(p.farmer == side, p.items[0] == Bank(side), p.items[1] == Bank(side), p.items[2] == Bank(side));
  }

  lemma AboardReads(p: Puzzle)
    requires Proper(p)
    ensures Letters(Aboard(p), 0) == Who(p, Place.Boat)
  {
    hide Letters;
    LettersAre(false, p.items[0].Boat?, p.items[1].Boat?, p.items[2].Boat?);
    assert "" + Who(p, Place.Boat) == Who(p, Place.Boat);
  }

  /** The text of a session: who stands on which bank, who is aboard, and where the boat is. */
  lemma StateReads(s: Session)
    requires Marked(s)
    ensures Proper(View(s))
    ensures var p := View(s);
      FormatState(s)
      == "Left: " + ((if p.farmer == Left then "F " else "") + Who(p, Bank(Left)))
         + ", Right: " + ((if p.farmer == Right then "F " else "") + Who(p, Bank(Right)))
         + ", Boat: " + Who(p, Place.Boat)
         + ", BoatSide: " + if p.farmer == Left then "left" else "right"
  {
    hide Letters, Who, On, Aboard, FormatState, View;
    FormatIsDescribe(s);
    OnReads(View(s), Left);
    OnReads(View(s), Right);
    AboardReads(View(s));
  }

  // ---------------------------------------------------------------- safety and the shortest crossing

  /** No reply says that somebody was eaten. */
  predicate NobodyEaten(replies: seq<Reply>) {
    forall i :: 0 <= i < |replies| ==> !(4 <= replies[i].code <= 7)
  }

  /** The rules call somebody eaten exactly after a move that leaves an unsafe bank. */
  lemma RulesEatIffUnsafe(p: Puzzle, c: Command)
    requires Proper(p)
    ensures 4 <= Play(p, c).1 <= 7 <==> c == Move && Unsafe(Play(p, c).0)
  {
  }

  /** On the marks: the tests of the two sides that the code makes after a move find somebody eaten
      exactly when the bank without the farmer is unsafe. */
  lemma EatenIffUnsafe(s: Session, c: Command)
    requires Marked(s)
    ensures Marked(Apply(s, c).0) && Proper(View(Apply(s, c).0))
    ensures 4 <= Apply(s, c).1 <= 7 <==> c == Move && Unsafe(View(Apply(s, c).0))
  {
    MarksFollowRules(s, c);
    RulesEatIffUnsafe(View(s), c);
  }

  lemma {:induction false} RulesAreSafe(p: Puzzle, commands: seq<Command>)
    requires Proper(p) && !Unsafe(p)
    requires NobodyEaten(Answers(p, commands))
    ensures !Unsafe(Played(p, commands))
  {
    if commands != [] {
      var before, c := commands[..|commands| - 1], commands[|commands| - 1];
      EatenPrefix(p, commands);
      RulesAreSafe(p, before);
      RulesEatIffUnsafe(Played(p, before), c);
    }
  }

  /** While no reply is 4 to 7 the bank without the farmer never holds wolf with goat or goat
      with cabbage. */
  lemma SafeWhileNobodyEaten(s: Session, commands: seq<Command>)
    requires Marked(s) && Proper(View(s)) && !Unsafe(View(s))
    requires NobodyEaten(Replies(s, commands))
    ensures Proper(View(After(s, commands))) && !Unsafe(View(After(s, commands)))
  {
    RunFollowsRules(s, commands);
    RulesAreSafe(View(s), commands);
  }

  lemma FineAppend(replies: seq<Reply>, reply: Reply)
    requires AllFine(replies) && reply.code == 0
    ensures AllFine(replies + [reply])
  {
  }

  lemma EatenPrefix(p: Puzzle, commands: seq<Command>)
    requires Proper(p) && commands != [] && NobodyEaten(Answers(p, commands))
    ensures var before := commands[..|commands| - 1];
      NobodyEaten(Answers(p, before)) && !(4 <= Play(Played(p, before), commands[|commands| - 1]).1 <= 7)
  {
    var before, answers := commands[..|commands| - 1], Answers(p, commands);
    assert answers[..|before|] == Answers(p, before);
    assert forall i :: 0 <= i < |before| ==> Answers(p, before)[i] == answers[i];
    assert answers[|before|].code == Play(Played(p, before), commands[|commands| - 1]).1;
  }

  lemma FreshIsStart()
    ensures Marked(FRESH) && View(FRESH) == START && Proper(START) && !Unsafe(START) && Level(START) == 0
  {
  }

  /** Every session of a client, from its first command on. */
  lemma SessionSafety(commands: seq<Command>)
    ensures Marked(After(FRESH, commands)) && Proper(View(After(FRESH, commands)))
    ensures NobodyEaten(Replies(FRESH, commands)) ==> !Unsafe(View(After(FRESH, commands)))
  {
    RunFollowsRules(FRESH, commands);
    FreshIsStart();
    if NobodyEaten(Replies(FRESH, commands)) {
      SafeWhileNobodyEaten(FRESH, commands);
    }
  }

  function Across(p: Puzzle, place: Place): (r: nat)
    requires Proper(p)
  {
    (if p.items[0] == place then 1 else 0) + if p.items[2] == place then 1 else 0
  }

  /** A lower bound on the moves it takes to get here safely. */
  function Level(p: Puzzle): (r: nat)
    requires Proper(p)
  {
    if p.farmer == Left then
      if p.items[1] == Bank(Right) then 2 else [0, 4, 6][Across(p, Bank(Right))]
    else
      if p.items[1] == Bank(Left) then 5 else [7, 3, 1][Across(p, Bank(Left))]
  }

  function MovesIn(commands: seq<Command>): (r: nat) {
    if commands == [] then 0
    else MovesIn(commands[..|commands| - 1]) + if commands[|commands| - 1] == Move then 1 else 0
  }

  lemma LevelStep(p: Puzzle, c: Command)
    requires Proper(p) && !Unsafe(p)
    requires !Unsafe(Play(p, c).0)
    ensures Level(Play(p, c).0) <= Level(p) + if c == Move then 1 else 0
  {
  }

  lemma {:induction false} LevelBound(p: Puzzle, commands: seq<Command>)
    requires Proper(p) && !Unsafe(p)
    requires NobodyEaten(Answers(p, commands))
    ensures Level(Played(p, commands)) <= Level(p) + MovesIn(commands)
  {
    hide Play, Level, Unsafe, NobodyEaten, Answers, Proper;
    if commands != [] {
      var before, c := commands[..|commands| - 1], commands[|commands| - 1];
      EatenPrefix(p, commands);
      LevelBound(p, before);
      RulesAreSafe(p, before);
      RulesAreSafe(p, commands);
      LevelStep(Played(p, before), c);
    }
  }

  const CROSSED := Puzzle(Right, [Bank(Right), Bank(Right), Bank(Right)])

  lemma CrossedLevel()
    ensures Proper(CROSSED) && Level(CROSSED) == 7
  {
  }

  /** Getting all four across with nobody eaten takes at least seven moves. */
  lemma SevenMovesNeeded(commands: seq<Command>)
    requires NobodyEaten(Replies(FRESH, commands))
    requires View(After(FRESH, commands)) == CROSSED
    ensures MovesIn(commands) >= 7
  {
    FreshIsStart();
    LevelOfRun(FRESH, commands);
    CrossedLevel();
  }

  lemma LevelOfRun(s: Session, commands: seq<Command>)
    requires Marked(s) && Proper(View(s)) && !Unsafe(View(s)) && NobodyEaten(Replies(s, commands))
    ensures Proper(View(After(s, commands)))
    ensures Level(View(After(s, commands))) <= Level(View(s)) + MovesIn(commands)
  {
    RunFollowsRules(s, commands);
    LevelBound(View(s), commands);
  }

  /** Seven moves suffice: goat over, back, wolf over, goat back, cabbage over, back, goat over. */
  const SOLUTION: seq<Command> :=
    [Take(2), Move, Put, Move, Take(1), Move, Put, Take(2), Move, Put, Take(3), Move, Put, Move, Take(2), Move, Put]

  const PATH: seq<Puzzle> :=
    [Puzzle(Left, [Bank(Left), Bank(Left), Bank(Left)]),
     Puzzle(Left, [Bank(Left), Place.Boat, Bank(Left)]),
     Puzzle(Right, [Bank(Left), Place.Boat, Bank(Left)]),
     Puzzle(Right, [Bank(Left), Bank(Right), Bank(Left)]),
     Puzzle(Left, [Bank(Left), Bank(Right), Bank(Left)]),
     Puzzle(Left, [Place.Boat, Bank(Right), Bank(Left)]),
     Puzzle(Right, [Place.Boat, Bank(Right), Bank(Left)]),
     Puzzle(Right, [Bank(Right), Bank(Right), Bank(Left)]),
     Puzzle(Right, [Bank(Right), Place.Boat, Bank(Left)]),
     Puzzle(Left, [Bank(Right), Place.Boat, Bank(Left)]),
     Puzzle(Left, [Bank(Right), Bank(Left), Bank(Left)]),
     Puzzle(Left, [Bank(Right), Bank(Left), Place.Boat]),
     Puzzle(Right, [Bank(Right), Bank(Left), Place.Boat]),
     Puzzle(Right, [Bank(Right), Bank(Left), Bank(Right)]),
     Puzzle(Left, [Bank(Right), Bank(Left), Bank(Right)]),
     Puzzle(Left, [Bank(Right), Place.Boat, Bank(Right)]),
     Puzzle(Right, [Bank(Right), Place.Boat, Bank(Right)]),
     Puzzle(Right, [Bank(Right), Bank(Right), Bank(Right)])]

  lemma FirstHalfStep(i: nat)
    requires i < 9
    ensures Proper(PATH[i]) && Play(PATH[i], SOLUTION[i]) == (PATH[i + 1], 0)
  {
    assert Play(PATH[i], SOLUTION[i]).0.items == PATH[i + 1].items;
  }

  lemma SecondHalfStep(i: nat)
    requires 9 <= i < 17
    ensures Proper(PATH[i]) && Play(PATH[i], SOLUTION[i]) == (PATH[i + 1], 0)
  {
    assert Play(PATH[i], SOLUTION[i]).0.items == PATH[i + 1].items;
  }

  lemma SolutionStep(i: nat)
    requires i < 17
    ensures Proper(PATH[i]) && Play(PATH[i], SOLUTION[i]) == (PATH[i + 1], 0)
  {
    hide Play;
    if i < 9 {
      FirstHalfStep(i);
    } else {
      SecondHalfStep(i);
    }
  }

  const MOVES: seq<nat> := [0, 0, 1, 1, 2, 2, 3, 3, 3, 4, 4, 4, 5, 5, 6, 6, 7, 7]

  lemma SolutionMoves(i: nat)
    requires i < 17
    ensures MOVES[i + 1] == MOVES[i] + if SOLUTION[i] == Move then 1 else 0
  {
  }

  lemma {:induction false} SolutionCount(i: nat)
    requires i <= 17
    ensures MovesIn(SOLUTION[..i]) == MOVES[i]
  {
    if i > 0 {
      SolutionMoves(i - 1);
      SolutionCount(i - 1);
      assert SOLUTION[..i][..i - 1] == SOLUTION[..i - 1];
    }
  }

  /** No reply is an error. */
  predicate AllFine(replies: seq<Reply>) {
    forall i :: 0 <= i < |replies| ==> replies[i].code == 0
  }

  lemma StartEmpty()
    ensures Proper(START) && Played(START, []) == PATH[0] && AllFine(Answers(START, []))
  {
  }

  lemma OneMore(p: Puzzle, commands: seq<Command>, c: Command, after: Puzzle)
    requires Proper(p) && AllFine(Answers(p, commands)) && Play(Played(p, commands), c) == (after, 0)
    ensures Played(p, commands + [c]) == after
    ensures AllFine(Answers(p, commands + [c]))
  {
    hide Play, Proper, AllFine;
    assert (commands + [c])[..|commands|] == commands;
    FineAppend(Answers(p, commands), Answer(after, 0));
  }

  lemma {:induction false} SolutionTo(i: nat)
    requires i <= 17
    ensures Proper(START) && Played(START, SOLUTION[..i]) == PATH[i]
    ensures AllFine(Answers(START, SOLUTION[..i]))
  {
    hide Play, Played, Answers, AllFine, Proper;
    StartEmpty();
    if i > 0 {
      SolutionStep(i - 1);
      SolutionTo(i - 1);
      assert SOLUTION[..i] == SOLUTION[..i - 1] + [SOLUTION[i - 1]];
      OneMore(START, SOLUTION[..i - 1], SOLUTION[i - 1], PATH[i]);
    }
  }

  /** Seven moves do it: the commands of solution.txt. */
  lemma SevenMovesSuffice() returns (commands: seq<Command>)
    ensures commands == SOLUTION
    ensures AllFine(Replies(FRESH, commands)) && NobodyEaten(Replies(FRESH, commands))
    ensures View(After(FRESH, commands)) == CROSSED
    ensures MovesIn(commands) == 7
  {
    commands := SOLUTION[..17];
    SolutionTo(17);
    SolutionCount(17);
    CrossedOnMarks(commands);
  }

  lemma CrossedOnMarks(commands: seq<Command>)
    requires Proper(START) && Played(START, commands) == PATH[17] && AllFine(Answers(START, commands))
    ensures AllFine(Replies(FRESH, commands)) && View(After(FRESH, commands)) == CROSSED
  {
    FreshIsStart();
    RunFollowsRules(FRESH, commands);
  }
}
