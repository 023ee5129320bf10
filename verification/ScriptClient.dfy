/** The scripted client of src/53_client.c: it strips whitespace from a command file, cuts it at
    semicolons, sends command after command, and stops at the first reply with a nonzero status, or
    waits when there is no reply. */
module ScriptClient {
  import opened Options
  import opened CStrings
  import opened FarmerPuzzle

  const MAX_CMD_LEN := 256

  function Strip(text: string): (r: string) {
    if text == [] then []
    else if IsSpace(text[|text| - 1]) then Strip(text[..|text| - 1])
    else Strip(text[..|text| - 1]) + [text[|text| - 1]]
  }

  /** What follows the last semicolon. */
  function Tail(s: string): (r: string)
    ensures ';' !in r
  {
    if s == [] || s[|s| - 1] == ';' then [] else Tail(s[..|s| - 1]) + [s[|s| - 1]]
  }

  /** What the semicolons end, in order. */
  function Terminated(s: string): (r: seq<string>) {
    if s == [] then []
    else if s[|s| - 1] == ';' then Terminated(s[..|s| - 1]) + [Tail(s[..|s| - 1])]
    else Terminated(s[..|s| - 1])
  }

  function Cut(s: string): (r: string) {
    if |s| <= MAX_CMD_LEN - 1 then s else s[..MAX_CMD_LEN - 1]
  }

  /** The commands: each piece cut to the buffer, empty ones dropped. */
  function Tokens(pieces: seq<string>): (r: seq<string>) {
    if pieces == [] then []
    else
      var token := CString(Cut(pieces[|pieces| - 1]));
      if token == [] then Tokens(pieces[..|pieces| - 1]) else Tokens(pieces[..|pieces| - 1]) + [token]
  }

  function Commands(text: string): (r: seq<string>) {
    Tokens(Terminated(Strip(text)))
  }

  /** The status of the reply to the last of the commands sent so far, None when none is sent. */
  type Server = seq<string> -> Option<int>

  /** All commands after the first k, up to the first r, are answered with status 0. */
  ghost predicate Quiet(commands: seq<string>, server: Server, k: nat, r: nat)
    requires r <= |commands|
  {
    forall j :: k < j <= r ==> server(commands[..j]) == Some(0)
  }

  /** The first command not answered with status 0, or their number. */
  function FirstStop(commands: seq<string>, server: Server, k: nat): (r: nat)
    requires k <= |commands|
    ensures k <= r <= |commands|
    ensures Quiet(commands, server, k, r)
    ensures r < |commands| ==> server(commands[..r + 1]) != Some(0)
    decreases |commands| - k
  {
    if k == |commands| || server(commands[..k + 1]) != Some(0) then k else FirstStop(commands, server, k + 1)
  }

  lemma {:induction false} FirstStopFrom(commands: seq<string>, server: Server, k: nat, j: nat)
    requires k <= j <= |commands|
    requires Quiet(commands, server, k, j)
    ensures FirstStop(commands, server, k) == FirstStop(commands, server, j)
    decreases j - k
  {
    if k < j {
      FirstStopFrom(commands, server, k + 1, j);
    }
  }

  predicate Prefix<T(==)>(a: seq<T>, b: seq<T>) {
    |a| <= |b| && a == b[..|a|]
  }

  lemma {:induction false} TerminatedGrows(s: string, i: nat)
    requires i <= |s|
    ensures Prefix(Terminated(s[..i]), Terminated(s))
    decreases |s|
  {
    if i < |s| {
      var before := s[..|s| - 1];
      TerminatedGrows(before, i);
      assert before[..i] == s[..i];
    } else {
      assert s[..i] == s;
    }
  }

  lemma {:induction false} StripGrows(text: string, i: nat)
    requires i <= |text|
    ensures Prefix(Strip(text[..i]), Strip(text))
    decreases |text|
  {
    if i < |text| {
      var before := text[..|text| - 1];
      StripGrows(before, i);
      assert before[..i] == text[..i];
    } else {
      assert text[..i] == text;
    }
  }

  lemma {:induction false} TokensGrow(pieces: seq<string>, i: nat)
    requires i <= |pieces|
    ensures Prefix(Tokens(pieces[..i]), Tokens(pieces))
    decreases |pieces|
  {
    if i < |pieces| {
      var before := pieces[..|pieces| - 1];
      TokensGrow(before, i);
      assert before[..i] == pieces[..i];
    } else {
      assert pieces[..i] == pieces;
    }
  }

  /** One more character of the stripped text. */
  lemma AddChar(s: string, c: char)
    ensures Terminated(s + [c]) == if c == ';' then Terminated(s) + [Tail(s)] else Terminated(s)
    ensures Tail(s + [c]) == if c == ';' then [] else Tail(s) + [c]
  {
    assert (s + [c])[..|s|] == s;
  }

  lemma AddPiece(pieces: seq<string>, piece: string)
    ensures Tokens(pieces + [piece])
         == if CString(Cut(piece)) == [] then Tokens(pieces) else Tokens(pieces) + [CString(Cut(piece))]
  {
    assert (pieces + [piece])[..|pieces|] == pieces;
  }

  /** What one more character of the file does to the commands and to the piece begun. */
  lemma NextChar(text: string, i: nat)
    requires i < |text|
    ensures IsSpace(text[i]) ==> Strip(text[..i + 1]) == Strip(text[..i])
    ensures !IsSpace(text[i]) ==>
      Tail(Strip(text[..i + 1])) == if text[i] == ';' then [] else Tail(Strip(text[..i])) + [text[i]]
    ensures var token := CString(Cut(Tail(Strip(text[..i]))));
      Commands(text[..i + 1])
      == if text[i] == ';' && token != [] then Commands(text[..i]) + [token] else Commands(text[..i])
  {
    assert text[..i + 1][..i] == text[..i];
    AddChar(Strip(text[..i]), text[i]);
    AddPiece(Terminated(Strip(text[..i])), Tail(Strip(text[..i])));
  }

  /** Reading on only adds commands. */
  lemma CommandsGrow(text: string, i: nat)
    requires i <= |text|
    ensures Prefix(Commands(text[..i]), Commands(text))
  {
    StripGrows(text, i);
    TerminatedGrows(Strip(text), |Strip(text[..i])|);
    TokensGrow(Terminated(Strip(text)), |Terminated(Strip(text[..i]))|);
  }

  /** The main loop. status is the exit status, None when the client waits for a reply for ever;
      unless it does, the last thing sent is the escape message. */
  method RunScript(text: string, server: Server) returns (sent: seq<string>, status: Option<int>)
    ensures var commands := Commands(text); var k := FirstStop(commands, server, 0);
      if k < |commands| && server(commands[..k + 1]) == None then
        sent == commands[..k + 1] && status == None
      else
        && sent == (if k < |commands| then commands[..k + 1] else commands) + [ESCAPE]
        && status == Some(if k == |commands| && Tail(Strip(text)) != [] then 1 else 0)
  {
    hide Commands, Strip, Tail, Quiet, FirstStop;
    var buffer: string := [];
    sent := [];
    NothingYet(text, server);
    for i := 0 to |text|
      invariant buffer == Cut(Tail(Strip(text[..i])))
      invariant sent == Commands(text[..i])
      invariant Quiet(sent, server, 0, |sent|)
    {
      var c := text[i];
      NextChar(text, i);
      if IsSpace(c) {
        continue;
      }
      if c == ';' {
        var command := CString(buffer);
        if |command| > 0 {
          SentOneMore(sent, command, server);
          sent := sent + [command];
          var reply := server(sent);
          if reply != Some(0) {
            StoppedAt(text, i + 1, sent, server);
            if reply == None {
              return sent, None;
            }
            return sent + [ESCAPE], Some(0);
          }
        }
        buffer := [];
      } else if |buffer| < MAX_CMD_LEN - 1 {
        buffer := buffer + [c];
      }
    }
    assert text[..|text|] == text;
    FirstStopFrom(sent, server, 0, |sent|);
    NoneLeft(sent, server);
    status := Some(if |buffer| > 0 then 1 else 0);
    sent := sent + [ESCAPE];
  }

  lemma NothingYet(text: string, server: Server)
    ensures Cut(Tail(Strip(text[..0]))) == [] && Commands(text[..0]) == []
    ensures Quiet([], server, 0, 0)
  {
  }

  lemma NoneLeft(commands: seq<string>, server: Server)
    ensures FirstStop(commands, server, |commands|) == |commands|
  {
  }

  lemma SentOneMore(sent: seq<string>, command: string, server: Server)
    requires Quiet(sent, server, 0, |sent|)
    ensures Quiet(sent + [command], server, 0, |sent|)
    ensures server(sent + [command]) == Some(0) ==> Quiet(sent + [command], server, 0, |sent| + 1)
  {
    assert forall j :: 0 <= j <= |sent| ==> (sent + [command])[..j] == sent[..j];
    assert (sent + [command])[..|sent| + 1] == sent + [command];
  }

  /** A reply that is missing or not 0 after i characters is the first such of the whole file. */
  lemma StoppedAt(text: string, i: nat, sent: seq<string>, server: Server)
    requires i <= |text| && sent == Commands(text[..i]) && sent != []
    requires Quiet(sent, server, 0, |sent| - 1)
    requires server(sent) != Some(0)
    ensures FirstStop(Commands(text), server, 0) == |sent| - 1 < |Commands(text)|
    ensures sent == Commands(text)[..|sent|]
  {
    CommandsGrow(text, i);
    var commands, k := Commands(text), |sent| - 1;
    assert forall j :: 0 <= j <= |sent| ==> sent[..j] == commands[..j];
    assert sent[..|sent|] == sent;
    FirstStopFrom(commands, server, 0, k);
  }

  // ---------------------------------------------------------------- the pieces are the semicolon split

  function Join(pieces: seq<string>): (r: string) {
    if pieces == [] then [] else Join(pieces[..|pieces| - 1]) + pieces[|pieces| - 1] + [';']
  }

  predicate NoSemicolons(pieces: seq<string>) {
    forall i :: 0 <= i < |pieces| ==> ';' !in pieces[i]
  }

  lemma JoinSnoc(pieces: seq<string>, piece: string)
    ensures Join(pieces + [piece]) == Join(pieces) + piece + [';']
    ensures NoSemicolons(pieces) && ';' !in piece ==> NoSemicolons(pieces + [piece])
  {
    assert (pieces + [piece])[..|pieces|] == pieces;
  }

  lemma JoinStep(pieces: seq<string>, tail: string, c: char)
    ensures Join(pieces + [tail]) + [] == Join(pieces) + tail + [';']
    ensures Join(pieces) + (tail + [c]) == Join(pieces) + tail + [c]
    ensures NoSemicolons(pieces) && ';' !in tail ==> NoSemicolons(pieces + [tail])
  {
    JoinSnoc(pieces, tail);
  }

  lemma {:induction false} SplitJoins(s: string)
    ensures Join(Terminated(s)) + Tail(s) == s && NoSemicolons(Terminated(s))
  {
    if s != [] {
      var before, c := s[..|s| - 1], s[|s| - 1];
      SplitJoins(before);
      var pieces, tail := Terminated(before), Tail(before);
      JoinStep(pieces, tail, c);
      assert s == before + [c];
      assert (Terminated(s), Tail(s)) == if c == ';' then (pieces + [tail], []) else (pieces, tail + [c]);
    }
  }

  /** The only way to write s as semicolon-ended pieces and a rest is the split. */
  lemma {:induction false} SplitIsUnique(pieces: seq<string>, rest: string)
    requires NoSemicolons(pieces) && ';' !in rest
    ensures Terminated(Join(pieces) + rest) == pieces && Tail(Join(pieces) + rest) == rest
    decreases |pieces|, |rest|
  {
    if rest != [] {
      var init, c := rest[..|rest| - 1], rest[|rest| - 1];
      SplitIsUnique(pieces, init);
      SplitOneMore(Join(pieces) + init, Join(pieces) + rest, c);
      assert rest == init + [c];
    } else if pieces != [] {
      var before, last := pieces[..|pieces| - 1], pieces[|pieces| - 1];
      SplitIsUnique(before, last);
      assert pieces == before + [last];
      JoinStep(before, last, ';');
      SplitOneMore(Join(before) + last, Join(before) + last + [';'], ';');
    } else {
      assert Join(pieces) + rest == [];
    }
  }

  lemma SplitOneMore(before: string, s: string, c: char)
    requires s == before + [c]
    ensures Terminated(s) == if c == ';' then Terminated(before) + [Tail(before)] else Terminated(before)
    ensures Tail(s) == if c == ';' then [] else Tail(before) + [c]
  {
    AddChar(before, c);
  }

  // ---------------------------------------------------------------- whitespace

  predicate AllBlank(gap: string) {
    forall i :: 0 <= i < |gap| ==> gap[i] in BLANKS
  }

  predicate NoBlanks(s: string) {
    forall i :: 0 <= i < |s| ==> s[i] !in BLANKS
  }

  /** The characters of core in their order, with a gap before, between and behind them. */
  function Woven(core: string, gaps: seq<string>): (r: string)
    requires |gaps| == |core| + 1
  {
    if core == [] then gaps[0]
    else Woven(core[..|core| - 1], gaps[..|core|]) + [core[|core| - 1]] + gaps[|core|]
  }

  lemma {:induction false} StripBlanks(text: string, gap: string)
    requires AllBlank(gap)
    ensures Strip(text + gap) == Strip(text)
  {
    if gap == [] {
      assert text + gap == text;
    } else {
      var last := |gap| - 1;
      StripBlanks(text, gap[..last]);
      StripSnoc(text + gap[..last], gap[last]);
      assert text + gap == text + gap[..last] + [gap[last]];
    }
  }

  lemma StripSnoc(text: string, c: char)
    ensures Strip(text + [c]) == if c in BLANKS then Strip(text) else Strip(text) + [c]
  {
    SpacesAreBlanks(c);
    assert (text + [c])[..|text|] == text;
  }

  /** Gaps of whitespace, and only they, are stripped away. */
  lemma {:induction false} StripOfWoven(core: string, gaps: seq<string>)
    requires |gaps| == |core| + 1 && NoBlanks(core) && forall i :: 0 <= i < |gaps| ==> AllBlank(gaps[i])
    ensures Strip(Woven(core, gaps)) == core
  {
    if core == [] {
      StripBlanks([], gaps[0]);
      assert [] + gaps[0] == gaps[0];
    } else {
      var last := |core| - 1;
      StripOfWoven(core[..last], gaps[..|core|]);
      StripSnoc(Woven(core[..last], gaps[..|core|]), core[last]);
      StripBlanks(Woven(core[..last], gaps[..|core|]) + [core[last]], gaps[|core|]);
    }
  }

  /** Every text is what Strip leaves of it, in order and without whitespace, and gaps of whitespace. */
  lemma {:induction false} StripWeaves(text: string) returns (gaps: seq<string>)
    ensures NoBlanks(Strip(text))
    ensures |gaps| == |Strip(text)| + 1 && forall i :: 0 <= i < |gaps| ==> AllBlank(gaps[i])
    ensures text == Woven(Strip(text), gaps)
  {
    if text == [] {
      gaps := [[]];
    } else {
      var init, c := text[..|text| - 1], text[|text| - 1];
      var before := StripWeaves(init);
      var core := Strip(init);
      SpacesAreBlanks(c);
      assert text == init + [c];
      if c in BLANKS {
        gaps := before[..|core|] + [before[|core|] + [c]];
        WovenLastGap(core, before, c);
      } else {
        gaps := before + [[]];
        assert (core + [c])[..|core|] == core && gaps[..|core| + 1] == before;
        assert Woven(core + [c], gaps) == Woven(core, before) + [c] + [];
      }
    }
  }

  lemma WovenLastGap(core: string, gaps: seq<string>, c: char)
    requires |gaps| == |core| + 1
    ensures Woven(core, gaps[..|core|] + [gaps[|core|] + [c]]) == Woven(core, gaps) + [c]
  {
    var more := gaps[..|core|] + [gaps[|core|] + [c]];
    if core != [] {
      assert more[..|core|] == gaps[..|core|];
    }
  }

  // ---------------------------------------------------------------- scripts read back

  /** The pieces that are not empty. */
  function Kept(pieces: seq<string>): (r: seq<string>) {
    if pieces == [] then []
    else if pieces[|pieces| - 1] == [] then Kept(pieces[..|pieces| - 1])
    else Kept(pieces[..|pieces| - 1]) + [pieces[|pieces| - 1]]
  }

  /** The first 255 characters, or all. */
  predicate Begins(command: string, piece: string) {
    |command| == (if |piece| < 256 then |piece| else 255) && command == piece[..|command|]
  }

  predicate Clean(pieces: seq<string>) {
    forall i :: 0 <= i < |pieces| ==> NUL !in pieces[i]
  }

  lemma {:induction false} TokensAreKept(pieces: seq<string>)
    requires Clean(pieces)
    ensures |Tokens(pieces)| == |Kept(pieces)|
    ensures forall i :: 0 <= i < |Kept(pieces)| ==> Begins(Tokens(pieces)[i], Kept(pieces)[i])
  {
    if pieces != [] {
      TokensAreKept(pieces[..|pieces| - 1]);
      CStringWhole(Cut(pieces[|pieces| - 1]));
    }
  }

  /** However whitespace is strewn over pieces, each ended by a semicolon, and a rest: the client
      reads the pieces that are not empty, each cut to 255 characters, and the rest is left over. */
  lemma ScriptIsRead(pieces: seq<string>, rest: string, gaps: seq<string>)
    requires NoSemicolons(pieces) && Clean(pieces) && ';' !in rest && NoBlanks(Join(pieces) + rest)
    requires |gaps| == |Join(pieces) + rest| + 1 && forall i :: 0 <= i < |gaps| ==> AllBlank(gaps[i])
    ensures var text := Woven(Join(pieces) + rest, gaps);
      && |Commands(text)| == |Kept(pieces)|
      && (forall i :: 0 <= i < |Kept(pieces)| ==> Begins(Commands(text)[i], Kept(pieces)[i]))
      && Tail(Strip(text)) == rest
  {
    hide Woven, Join, NoBlanks;
    StripOfWoven(Join(pieces) + rest, gaps);
    SplitIsUnique(pieces, rest);
    TokensAreKept(pieces);
  }

  predicate Short(command: string) {
    0 < |command| < 256 && ';' !in command && NUL !in command
  }

  lemma {:induction false} KeptShort(pieces: seq<string>)
    requires forall i :: 0 <= i < |pieces| ==> Short(pieces[i])
    ensures Kept(pieces) == pieces
  {
    if pieces != [] {
      KeptShort(pieces[..|pieces| - 1]);
    }
  }

  /** However whitespace is strewn over a script of short commands, each ended by a semicolon,
      the client reads exactly these commands and nothing is left over. */
  lemma ScriptRoundTrip(commands: seq<string>, gaps: seq<string>)
    requires forall i :: 0 <= i < |commands| ==> Short(commands[i])
    requires NoBlanks(Join(commands))
    requires |gaps| == |Join(commands)| + 1 && forall i :: 0 <= i < |gaps| ==> AllBlank(gaps[i])
    ensures Commands(Woven(Join(commands), gaps)) == commands
    ensures Tail(Strip(Woven(Join(commands), gaps))) == []
  {
    hide Woven, Join, NoBlanks, Commands;
    assert Join(commands) + [] == Join(commands);
    ScriptIsRead(commands, [], gaps);
    KeptShort(commands);
    var read := Commands(Woven(Join(commands), gaps));
    assert forall i :: 0 <= i < |commands| ==> Begins(read[i], commands[i]) && read[i] == commands[i];
  }

  // ---------------------------------------------------------------- solution.txt

  /** The file, one command to a string, one line of it to a line. */
  const SOLUTION_FILE: seq<string> :=
    ["take goat; ", "move; ", "put; ", "move;\n"] +
    ["take wolf; ", "move; ", "put; ", "take goat; ", "move; ", "put; \n"] +
    ["take cabbage; ", "move; ", "put; ", "move;\n"] +
    ["take goat; ", "move; ", "put;\n"]

  const SOLUTION_COMMANDS: seq<string> :=
    ["takegoat", "move", "put", "move"] +
    ["takewolf", "move", "put", "takegoat", "move", "put"] +
    ["takecabbage", "move", "put", "move"] +
    ["takegoat", "move", "put"]

  function Flat(parts: seq<string>): (r: string) {
    if parts == [] then [] else Flat(parts[..|parts| - 1]) + parts[|parts| - 1]
  }

  lemma {:induction false} StripConcat(a: string, b: string)
    ensures Strip(a + b) == Strip(a) + Strip(b)
  {
    if b == [] {
      assert a + b == a;
    } else {
      StripConcat(a, b[..|b| - 1]);
      assert (a + b)[..|a + b| - 1] == a + b[..|b| - 1];
    }
  }

  lemma {:induction false} StripWord(text: string, word: string)
    requires NoBlanks(word)
    ensures Strip(text + word) == Strip(text) + word
  {
    hide Strip;
    if word == [] {
      assert text + word == text;
    } else {
      var last := |word| - 1;
      StripWord(text, word[..last]);
      StripSnoc(text + word[..last], word[last]);
      assert text + word == text + word[..last] + [word[last]];
    }
  }

  /** One word behind whitespace, with whitespace before and behind it. */
  lemma StripPart(before: string, word: string, gap: string)
    requires NoBlanks(before) && NoBlanks(word) && AllBlank(gap)
    ensures Strip(before + " " + word + gap) == before + word
    ensures Strip(word + gap) == word
  {
    StripWord([], before);
    StripBlanks(before, " ");
    StripWord(before + " ", word);
    StripBlanks(before + " " + word, gap);
    StripWord([], word);
    StripBlanks(word, gap);
    assert [] + before == before && [] + word == word;
  }

  lemma TakeParts()
    ensures Strip("take goat; ") == "takegoat" + ";"
    ensures Strip("take wolf; ") == "takewolf" + ";"
    ensures Strip("take cabbage; ") == "takecabbage" + ";"
  {
    hide Strip;
    StripPart("take", "goat;", " ");
    assert "take" + " " + "goat;" + " " == "take goat; " && "take" + "goat;" == "takegoat" + ";";
    StripPart("take", "wolf;", " ");
    assert "take" + " " + "wolf;" + " " == "take wolf; " && "take" + "wolf;" == "takewolf" + ";";
    StripPart("take", "cabbage;", " ");
    assert "take" + " " + "cabbage;" + " " == "take cabbage; " && "take" + "cabbage;" == "takecabbage" + ";";
  }

  lemma OtherParts()
    ensures Strip("move; ") == Strip("move;\n") == "move" + ";"
    ensures Strip("put; ") == Strip("put;\n") == Strip("put; \n") == "put" + ";"
  {
    hide Strip;
    StripPart([], "move;", " ");
    StripPart([], "move;", "\n");
    StripPart([], "put;", " ");
    StripPart([], "put;", "\n");
    StripPart([], "put;", " \n");
    assert "move;" + " " == "move; " && "move;" + "\n" == "move;\n" && "move" + ";" == "move;";
    assert "put;" + " " == "put; " && "put;" + "\n" == "put;\n" && "put;" + " \n" == "put; \n" && "put" + ";" == "put;";
  }

  lemma SolutionPart(i: nat)
    requires i < 17
    ensures |SOLUTION_FILE| == |SOLUTION_COMMANDS| == 17
    ensures Strip(SOLUTION_FILE[i]) == SOLUTION_COMMANDS[i] + [';']
    ensures Short(SOLUTION_COMMANDS[i])
  {
    hide Strip;
    TakeParts();
    OtherParts();
  }

  lemma {:induction false} StripParts(parts: seq<string>, commands: seq<string>)
    requires |parts| == |commands|
    requires forall i :: 0 <= i < |parts| ==> Strip(parts[i]) == commands[i] + [';']
    ensures Strip(Flat(parts)) == Join(commands)
  {
    hide Strip;
    if parts == [] {
      StripBlanks([], []);
      StripOfNothing();
    } else {
      var last := |parts| - 1;
      StripParts(parts[..last], commands[..last]);
      StripConcat(Flat(parts[..last]), parts[last]);
    }
  }

  lemma StripOfNothing()
    ensures Strip([]) == []
  {
  }

  /** What the client reads from solution.txt. */
  lemma SolutionIsRead()
    ensures Commands(Flat(SOLUTION_FILE)) == SOLUTION_COMMANDS && |SOLUTION_COMMANDS| == 17
    ensures Tail(Strip(Flat(SOLUTION_FILE))) == []
  {
    hide Strip, Join, Flat, Tokens, Tail, Terminated;
    forall i | 0 <= i < 17
      ensures |SOLUTION_FILE| == |SOLUTION_COMMANDS| == 17 && Short(SOLUTION_COMMANDS[i])
      ensures Strip(SOLUTION_FILE[i]) == SOLUTION_COMMANDS[i] + [';']
    {
      SolutionPart(i);
    }
    StripParts(SOLUTION_FILE, SOLUTION_COMMANDS);
    ShortAreRead(Flat(SOLUTION_FILE), SOLUTION_COMMANDS);
  }

  lemma ShortAreRead(text: string, commands: seq<string>)
    requires forall i :: 0 <= i < |commands| ==> Short(commands[i])
    requires Strip(text) == Join(commands)
    ensures Commands(text) == commands && Tail(Strip(text)) == []
  {
    assert Join(commands) + [] == Join(commands);
    SplitIsUnique(commands, []);
    TokensAreKept(commands);
    KeptShort(commands);
    assert forall i :: 0 <= i < |commands| ==> Begins(Tokens(commands)[i], commands[i]) && Tokens(commands)[i] == commands[i];
  }
}
