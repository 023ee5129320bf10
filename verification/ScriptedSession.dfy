/** The scripted client of src/53_client.c and the server of src/53_server.c together: what the
    table of sixteen slots does to a client whose messages are a script, whatever others send. */
module ScriptedSession {
  import opened Options
  import opened FarmerPuzzle
  import opened FarmerServer
  import Client = ScriptClient

  /** The client's own status stays 0. */
  function Messages(pid: int, commands: seq<string>): (r: seq<Message>)
    ensures |r| == |commands|
    ensures forall i {:trigger r[i]} :: 0 <= i < |r| ==> r[i] == Message(pid, 0, commands[i])
  {
    seq(|commands|, i requires 0 <= i < |commands| => Message(pid, 0, commands[i]))
  }

  function StatusOf(reply: Option<Message>): (r: Option<int>) {
    if reply == None then None else Some(reply.value.status)
  }

  /** The status the last of the commands is answered with when nobody else is there. */
  function AloneStatus(pid: int, commands: seq<string>): (r: Option<int>) {
    var replies := RunAlone(None, Messages(pid, commands)).1;
    if replies == [] then None else StatusOf(replies[|replies| - 1])
  }

  function Alone(pid: int): (r: Client.Server) {
    commands => AloneStatus(pid, commands)
  }

  /** Whatever the other clients send in between, the server answers a script as if it were alone. */
  lemma TableAnswersScript(zero: Session, msgs: seq<Message>, pid: int, commands: seq<string>)
    requires Sized(zero) && pid != FREE && forall k :: 0 <= k < |msgs| ==> msgs[k].pid != FREE
    requires NeverRefused(zero, msgs, pid) && Own(msgs, pid) == Messages(pid, commands) && commands != []
    ensures var replies := RepliesTo(RunServer(zero, msgs).1, msgs, pid);
      replies != [] && StatusOf(replies[|replies| - 1]) == Alone(pid)(commands)
  {
    ClientsAreIndependent(zero, msgs, pid);
  }

  lemma {:induction false} ReplyCount(o: Option<Session>, msgs: seq<Message>)
    requires o.Some? ==> Sized(o.value)
    ensures |RunAlone(o, msgs).1| == |msgs|
  {
    if msgs != [] {
      ReplyCount(o, msgs[..|msgs| - 1]);
    }
  }

  /** Only the escape message has no reply. */
  lemma AnsweredUnlessEscape(pid: int, commands: seq<string>)
    requires commands != []
    ensures Alone(pid)(commands) == None <==> commands[|commands| - 1] == [27 as char]
  {
    ReplyCount(None, Messages(pid, commands)[..|commands| - 1]);
  }

  lemma NoEscapeSoFar(pid: int, commands: seq<string>)
    requires Client.Quiet(commands, Alone(pid), 0, |commands|)
    ensures forall k :: 0 <= k < |commands| ==> commands[k] != ESCAPE
  {
    hide AloneStatus, RunAlone;
    forall k | 0 <= k < |commands| ensures commands[k] != ESCAPE {
      assert Alone(pid)(commands[..k + 1]) == Some(0);
      AnsweredUnlessEscape(pid, commands[..k + 1]);
    }
  }

  /** All replies so far had status 0, so nobody has been eaten. */
  lemma {:induction false} QuietSoFar(pid: int, commands: seq<string>)
    requires commands != [] && Client.Quiet(commands, Alone(pid), 0, |commands|)
    ensures RunAlone(None, Messages(pid, commands)).0 == Some(After(FRESH, Commands(Messages(pid, commands))))
    ensures NobodyEaten(Replies(FRESH, Commands(Messages(pid, commands))))
  {
    NoEscapeSoFar(pid, commands);
    var msgs := Messages(pid, commands);
    AloneIsSession(msgs);
    forall k | 0 <= k < |commands| ensures Replies(FRESH, Commands(msgs))[k].code == 0 {
      assert Alone(pid)(commands[..k + 1]) == Some(0);
      LastStatus(pid, commands, k);
    }
  }

  lemma LastStatus(pid: int, commands: seq<string>, k: nat)
    requires k < |commands| && forall j :: 0 <= j < |commands| ==> commands[j] != ESCAPE
    ensures Alone(pid)(commands[..k + 1]) == Some(Replies(FRESH, Commands(Messages(pid, commands)))[k].code)
  {
    hide Replies, RunAlone, Commands;
    var part := commands[..k + 1];
    AloneIsSession(Messages(pid, part));
    assert Messages(pid, commands)[..k + 1] == Messages(pid, part);
    RepliesOfPrefix(Messages(pid, commands), k + 1);
  }

  lemma {:induction false} RepliesOfPrefix(msgs: seq<Message>, n: nat)
    requires n <= |msgs|
    ensures Replies(FRESH, Commands(msgs[..n])) == Replies(FRESH, Commands(msgs))[..n]
    decreases |msgs|
  {
    hide Apply, Parse, ReplyTo, After;
    if n < |msgs| {
      var before := msgs[..|msgs| - 1];
      RepliesOfPrefix(before, n);
      assert before[..n] == msgs[..n];
      assert Commands(msgs)[..|before|] == Commands(before);
    } else {
      assert msgs[..n] == msgs;
    }
  }

  lemma QuietPrefix(commands: seq<string>, server: Client.Server, k: nat)
    requires k <= Client.FirstStop(commands, server, 0)
    ensures Client.Quiet(commands[..k], server, 0, k)
  {
    assert forall j :: 0 <= j <= k ==> commands[..k][..j] == commands[..j];
  }

  /** A script never plays on after somebody was eaten: whatever the file and whatever the other
      clients send, the client's session in the table is safe after every command but, at most,
      the last one the client sends. */
  lemma ScriptStopsInTime(text: string, zero: Session, msgs: seq<Message>, pid: int, k: nat)
    requires Sized(zero) && pid != FREE && forall i :: 0 <= i < |msgs| ==> msgs[i].pid != FREE
    requires 0 < k <= Client.FirstStop(Client.Commands(text), Alone(pid), 0)
    requires NeverRefused(zero, msgs, pid) && Own(msgs, pid) == Messages(pid, Client.Commands(text)[..k])
    ensures Table(RunServer(zero, msgs).0)
    ensures var session := Lookup(RunServer(zero, msgs).0, pid);
      session.Some? && Proper(View(session.value)) && !Unsafe(View(session.value))
  {
    var commands := Client.Commands(text)[..k];
    ClientsAreIndependent(zero, msgs, pid);
    QuietPrefix(Client.Commands(text), Alone(pid), k);
    QuietSoFar(pid, commands);
    SessionSafety(Commands(Messages(pid, commands)));
  }

  // ---------------------------------------------------------------- solution.txt

  lemma {:induction false} CommandAt(msgs: seq<Message>, k: nat)
    requires k < |msgs|
    ensures Commands(msgs)[k] == Parse(msgs[k].command)
  {
    hide Parse;
    if k < |msgs| - 1 {
      CommandAt(msgs[..|msgs| - 1], k);
    }
  }

  lemma SolutionParses(k: nat)
    requires k < 17
    ensures |Client.SOLUTION_COMMANDS| == |SOLUTION| == 17
    ensures Parse(Client.SOLUTION_COMMANDS[k]) == SOLUTION[k]
  {
    hide Parse;
    ParseExactly("takegoat");
    ParseExactly("takewolf");
    ParseExactly("takecabbage");
    ParseExactly("put");
    ParseExactly("move");
    assert "take" + NAMES[0] == "takewolf" && "take" + NAMES[1] == "takegoat" && "take" + NAMES[2] == "takecabbage";
  }

  lemma SolutionCommands(pid: int)
    ensures Commands(Messages(pid, Client.SOLUTION_COMMANDS)) == SOLUTION
    ensures forall k :: 0 <= k < 17 ==> |Client.SOLUTION_COMMANDS| == 17 && Client.SOLUTION_COMMANDS[k] != ESCAPE
  {
    hide Parse, Commands;
    var msgs := Messages(pid, Client.SOLUTION_COMMANDS);
    forall k | 0 <= k < 17
      ensures |Client.SOLUTION_COMMANDS| == |SOLUTION| == 17 && Commands(msgs)[k] == SOLUTION[k]
      ensures Client.SOLUTION_COMMANDS[k] != ESCAPE
    {
      SolutionParses(k);
      CommandAt(msgs, k);
      Client.SolutionPart(k);
      EscapeIsUnknown();
      TakesAreKnown(k);
    }
  }

  lemma EscapeIsUnknown()
    ensures Parse(ESCAPE) == Unknown
  {
    ParseExactly(ESCAPE);
  }

  lemma TakesAreKnown(k: nat)
    requires k < 17
    ensures SOLUTION[k] != Unknown
  {
  }

  /** From the characters of solution.txt to the other side: the client sends all its commands, no
      reply is an error, and the session ends with all four across. */
  lemma SolutionCrosses(pid: int)
    ensures var commands := Client.Commands(Client.Flat(Client.SOLUTION_FILE));
      && |commands| == 17 && Client.FirstStop(commands, Alone(pid), 0) == 17
      && var session := RunAlone(None, Messages(pid, commands)).0;
      && session.Some? && Sized(session.value) && View(session.value) == CROSSED
  {
    hide Parse, Commands, RunAlone, View, Replies, After, Messages, Client.Flat;
    Client.SolutionIsRead();
    var commands := Client.SOLUTION_COMMANDS;
    SolutionCommands(pid);
    var played := SevenMovesSuffice();
    AloneIsSession(Messages(pid, commands));
    forall j | 0 < j <= 17 ensures Alone(pid)(commands[..j]) == Some(0) {
      LastStatus(pid, commands, j - 1);
      assert commands[..j - 1 + 1] == commands[..j];
    }
    Client.FirstStopFrom(commands, Alone(pid), 0, 17);
    Client.NoneLeft(commands, Alone(pid));
  }
}
