/** The session table of src/53_server.c: sixteen slots behind one queue that mixes the messages
    of all clients, proved to be a bounded map from client pid to puzzle session in which
    clients do not notice one another. */
module FarmerServer {
  import opened Options
  import opened FarmerPuzzle

  const MAX_CLIENTS := 16
  const FREE := -1

  /** session_t. */
  datatype Slot = Slot(pid: int, marks: Session)

  /** message_t, and what is sent back to the client's queue. */
  datatype Message = Message(pid: int, status: int, command: string)

  predicate IsTable(t: seq<Slot>) {
    |t| == MAX_CLIENTS && forall i :: 0 <= i < |t| ==> Sized(t[i].marks)
  }

  // ---------------------------------------------------------------- the code on tables

  /** The first slot from i on that holds pid, or -1. */
  function Find(t: seq<Slot>, pid: int, i: nat): (r: int)
    requires i <= |t|
    ensures r == -1 || i <= r < |t|
    ensures r != -1 ==> t[r].pid == pid && forall j :: i <= j < r ==> t[j].pid != pid
    ensures r == -1 ==> forall j :: i <= j < |t| ==> t[j].pid != pid
    decreases |t| - i
  {
    if i == |t| then -1 else if t[i].pid == pid then i else Find(t, pid, i + 1)
  }

  /** The slot a message is served in, and the table with that slot set up; -1 when refused. */
  function Admit(t: seq<Slot>, pid: int): (r: (seq<Slot>, int))
    requires IsTable(t)
    ensures IsTable(r.0) && -1 <= r.1 < |t|
  {
    var i := Find(t, pid, 0);
    if i != -1 then (t, i)
    else
      var free := Find(t, FREE, 0);
      if free == -1 then (t, -1) else (t[free := Slot(pid, FRESH)], free)
  }

  /** The reply to a command that left the session at after with the given code. */
  function ReplyMessage(msg: Message, after: Session, code: int): (r: Message)
    requires Sized(after)
  {
    Message(msg.pid, if code == 0 then msg.status else code, ReplyTo(after, code).text)
  }

  function Serve(t: seq<Slot>, msg: Message): (r: (seq<Slot>, Option<Message>))
    requires IsTable(t)
    ensures IsTable(r.0)
  {
    var (t1, i) := Admit(t, msg.pid);
    if i == -1 then (t1, None)
    else if msg.command == ESCAPE then (t1[i := t1[i].(pid := FREE)], None)
    else
      var (after, code) := Apply(t1[i].marks, Parse(msg.command));
      (t1[i := t1[i].(marks := after)], Some(ReplyMessage(msg, after, code)))
  }

  function EmptyTable(marks: Session): (r: seq<Slot>)
    requires Sized(marks)
    ensures IsTable(r)
  {
    seq(MAX_CLIENTS, i => Slot(FREE, marks))
  }

  // ---------------------------------------------------------------- the code in place

  class Server {
    const sessions: array<Slot>

    ghost predicate Valid()
      reads this, sessions
    {
      IsTable(sessions[..])
    }

    constructor (zero: Session)
      requires Sized(zero)
      ensures Valid() && fresh(sessions) && sessions[..] == EmptyTable(zero)
    {
      sessions := new Slot[MAX_CLIENTS](i => Slot(FREE, zero));
      new;
      assert sessions[..] == EmptyTable(zero);
    }

    method FindSession(pid: int) returns (r: int)
      requires Valid()
      ensures r == Find(sessions[..], pid, 0)
    {
      for i := 0 to MAX_CLIENTS
        invariant Find(sessions[..], pid, 0) == Find(sessions[..], pid, i)
      {
        if sessions[i].pid == pid {
          return i;
        }
      }
      return -1;
    }

    method CreateSession(pid: int) returns (r: int)
      requires Valid()
      modifies sessions
      ensures Valid()
      ensures r == Find(old(sessions[..]), FREE, 0)
      ensures sessions[..] == if r == -1 then old(sessions[..]) else old(sessions[..])[r := Slot(pid, FRESH)]
    {
      for i := 0 to MAX_CLIENTS
        invariant sessions[..] == old(sessions[..])
        invariant Find(sessions[..], FREE, 0) == Find(sessions[..], FREE, i)
      {
        if sessions[i].pid == FREE {
          sessions[i] := Slot(pid, FRESH);
          return i;
        }
      }
      return -1;
    }

    /** The command chain on the session in slot idx; the status set, 0 for none. */
    method Dispatch(idx: nat, command: string) returns (code: int)
      requires Valid() && idx < MAX_CLIENTS
      modifies sessions
      ensures var (after, c) := Apply(old(sessions[idx]).marks, Parse(command));
        sessions[..] == old(sessions[..])[idx := old(sessions[idx]).(marks := after)] && code == c
    {
      var s := sessions[idx].marks;
      var boat := if s.left[0] != 0 then 0 else 1;
      var carry := FindCarry(s);
      code := 0;
      if command == "takegoat" || command == "takewolf" || command == "takecabbage" {
        var item := if command[4] == 'g' then 2 else if command[4] == 'w' then 1 else 3;
        if carry != -1 {
          code := 1;
        } else if (boat == 0 && s.left[item] == 1) || (boat == 1 && s.right[item] == 1) {
          if boat == 0 {
            s := s.(left := s.left[item := 2]);
          } else {
            s := s.(right := s.right[item := 2]);
          }
        } else {
          code := 2;
        }
      } else if command == "put" {
        if carry == -1 {
          code := 3;
        } else if boat == 0 {
          s := Session(s.left[carry := 1], s.right[carry := 0]);
        } else {
          s := Session(s.left[carry := 0], s.right[carry := 1]);
        }
      } else if command == "move" {
        if boat == 0 {
          s := Session(s.left[0 := 0], s.right[0 := 1]);
        } else {
          s := Session(s.left[0 := 1], s.right[0 := 0]);
        }
        code := Verdict(s);
      } else {
        code := -1;
      }
      sessions[idx] := sessions[idx].(marks := s);
    }

    method FindCarry(s: Session) returns (carry: int)
      requires Sized(s)
      ensures carry == Carry(s)
    {
      for i := 1 to 4
        invariant Carry(s) == CarriedFrom(s, i)
      {
        if s.left[i] == 2 || s.right[i] == 2 {
          return i;
        }
      }
      return -1;
    }

    method AppendMark(buffer: string, marked: bool, i: nat, ghost marks: seq<bool>) returns (r: string)
      requires i < 4 == |marks| && marked == marks[i]
      ensures r + Letters(marks, i + 1) == buffer + Letters(marks, i)
    {
      r := if marked then buffer + [LETTERS[i], ' '] else buffer;
    }

    /** format_state: three buffers filled letter by letter. */
    method Format(s: Session) returns (text: string)
      requires Sized(s)
      ensures text == FormatState(s)
    {
      var l, r, b := [], [], [];
      ghost var ls := seq(4, i requires 0 <= i < 4 => s.left[i] == 1);
      ghost var rs := seq(4, i requires 0 <= i < 4 => s.right[i] == 1);
      ghost var bs := seq(4, i requires 0 <= i < 4 => s.left[i] == 2 || s.right[i] == 2);
      for i := 0 to 4
        invariant l + Letters(ls, i) == Letters(ls, 0)
        invariant r + Letters(rs, i) == Letters(rs, 0)
        invariant b + Letters(bs, i) == Letters(bs, 0)
      {
        l := AppendMark(l, s.left[i] == 1, i, ls);
        r := AppendMark(r, s.right[i] == 1, i, rs);
        b := AppendMark(b, s.left[i] == 2 || s.right[i] == 2, i, bs);
      }
      assert l == Letters(ls, 0) && r == Letters(rs, 0) && b == Letters(bs, 0);
      text := "Left: " + l + ", Right: " + r + ", Boat: " + b
        + ", BoatSide: " + if s.left[0] != 0 then "left" else "right";
    }

    /** One turn of the receive loop; a reply is sent unless the client is refused or leaves. */
    method Handle(msg: Message) returns (reply: Option<Message>)
      requires Valid()
      modifies sessions
      ensures Valid()
      ensures (sessions[..], reply) == Serve(old(sessions[..]), msg)
    {
      var idx := FindSession(msg.pid);
      if idx == -1 {
        idx := CreateSession(msg.pid);
      }
      if idx == -1 {
        return None;
      }
      if msg.command == ESCAPE {
        sessions[idx] := sessions[idx].(pid := FREE);
        return None;
      }
      var code := Dispatch(idx, msg.command);
      if code == 0 {
        var text := Format(sessions[idx].marks);
        return Some(Message(msg.pid, msg.status, text));
      }
      return Some(Message(msg.pid, code, ErrorText(code)));
    }
  }

  // ---------------------------------------------------------------- the table is a map

  /** No pid in two slots. */
  ghost predicate Unique(t: seq<Slot>) {
    forall i, j :: 0 <= i < j < |t| && t[i].pid == t[j].pid ==> t[i].pid == FREE
  }

  ghost predicate AllMarked(t: seq<Slot>) {
    forall i :: 0 <= i < |t| && t[i].pid != FREE ==> Marked(t[i].marks)
  }

  ghost predicate Has(t: seq<Slot>, pid: int) {
    exists i :: 0 <= i < |t| && t[i].pid == pid
  }

  ghost function Sessions(t: seq<Slot>): (m: map<int, Session>)
    requires Unique(t)
    ensures forall i :: 0 <= i < |t| && t[i].pid != FREE ==> t[i].pid in m && m[t[i].pid] == t[i].marks
    ensures forall p :: p in m ==> p != FREE && Has(t, p)
  {
    map i | 0 <= i < |t| && t[i].pid != FREE :: t[i].pid := t[i].marks
  }

  function Busy(t: seq<Slot>): (r: nat)
    ensures r <= |t|
  {
    if t == [] then 0 else Busy(t[..|t| - 1]) + if t[|t| - 1].pid == FREE then 0 else 1
  }

  lemma UniqueSnoc(before: seq<Slot>, last: Slot)
    requires Unique(before + [last])
    ensures Unique(before)
    ensures last.pid != FREE ==> forall i :: 0 <= i < |before| ==> before[i].pid != last.pid
  {
    var t := before + [last];
    assert forall i :: 0 <= i < |before| ==> t[i] == before[i];
    assert t[|before|] == last;
  }

  /** A map with every slot's session and no other is the table's. */
  lemma IsSessions(t: seq<Slot>, m: map<int, Session>)
    requires Unique(t)
    requires forall i :: 0 <= i < |t| && t[i].pid != FREE ==> t[i].pid in m && m[t[i].pid] == t[i].marks
    requires forall p :: p in m ==> p != FREE && Has(t, p)
    ensures m == Sessions(t)
  {
    forall p | p in m ensures p in Sessions(t) && Sessions(t)[p] == m[p] {
      var i :| 0 <= i < |t| && t[i].pid == p;
    }
  }

  lemma SessionsSnoc(before: seq<Slot>, last: Slot)
    requires Unique(before + [last])
    ensures Unique(before)
    ensures last.pid != FREE ==> last.pid !in Sessions(before)
    ensures Sessions(before + [last])
         == if last.pid == FREE then Sessions(before) else Sessions(before)[last.pid := last.marks]
  {
    hide Unique, Sessions;
    UniqueSnoc(before, last);
    var t := before + [last];
    var m := if last.pid == FREE then Sessions(before) else Sessions(before)[last.pid := last.marks];
    forall p | p in m ensures p != FREE && Has(t, p) {
      assert t[|before|] == last;
      if p in Sessions(before) {
        var i :| 0 <= i < |before| && before[i].pid == p;
        assert t[i].pid == p;
      }
    }
    IsSessions(t, m);
  }

  lemma {:induction false} BusyIsSize(t: seq<Slot>)
    requires Unique(t)
    ensures |Sessions(t)| == Busy(t)
  {
    if t == [] {
      assert Sessions(t) == map[];
    } else {
      var before, last := t[..|t| - 1], t[|t| - 1];
      assert t == before + [last];
      SessionsSnoc(before, last);
      BusyIsSize(before);
    }
  }

  lemma {:induction false} BusyFull(t: seq<Slot>)
    ensures Busy(t) == |t| <==> forall i :: 0 <= i < |t| ==> t[i].pid != FREE
  {
    if t != [] {
      BusyFull(t[..|t| - 1]);
    }
  }

  /** Serving a message on a map from pid to session that holds at most sixteen. */
  function MapServe(m: map<int, Session>, msg: Message): (r: (map<int, Session>, Option<Message>))
    requires forall p :: p in m ==> Sized(m[p])
  {
    if msg.pid !in m && |m| >= MAX_CLIENTS then (m, None)
    else if msg.command == ESCAPE then (m - {msg.pid}, None)
    else
      var (after, code) := Apply(if msg.pid in m then m[msg.pid] else FRESH, Parse(msg.command));
      (m[msg.pid := after], Some(ReplyMessage(msg, after, code)))
  }

  ghost predicate Table(t: seq<Slot>) {
    IsTable(t) && Unique(t) && AllMarked(t)
  }

  lemma SessionsFreed(t: seq<Slot>, i: nat, slot: Slot)
    requires Unique(t) && i < |t| && Unique(t[i := slot]) && slot.pid == FREE
    ensures Sessions(t[i := slot]) == Sessions(t) - {t[i].pid}
  {
    hide Sessions;
    var m := Sessions(t) - {t[i].pid};
    forall p | p in m ensures p != FREE && Has(t[i := slot], p) {
      var j :| 0 <= j < |t| && t[j].pid == p;
      assert t[i := slot][j].pid == p;
    }
    IsSessions(t[i := slot], m);
  }

  lemma SessionsWritten(t: seq<Slot>, i: nat, slot: Slot)
    requires Unique(t) && i < |t| && Unique(t[i := slot]) && slot.pid != FREE
    requires t[i].pid == FREE || t[i].pid == slot.pid
    ensures Sessions(t[i := slot]) == Sessions(t)[slot.pid := slot.marks]
  {
    hide Sessions;
    var m := Sessions(t)[slot.pid := slot.marks];
    assert t[i := slot][i] == slot;
    forall p | p in m ensures p != FREE && Has(t[i := slot], p) {
      if p != slot.pid {
        var j :| 0 <= j < |t| && t[j].pid == p;
        assert t[i := slot][j].pid == p;
      }
    }
    IsSessions(t[i := slot], m);
  }

  /** A client is refused exactly when it has no session and sixteen others have. */
  lemma RefusedWhenFull(t: seq<Slot>, pid: int)
    requires Table(t) && pid != FREE
    ensures |Sessions(t)| <= 16
    ensures Admit(t, pid).1 == -1 <==> pid !in Sessions(t) && |Sessions(t)| == 16
  {
    BusyIsSize(t);
    BusyFull(t);
  }

  lemma AdmitRefines(t: seq<Slot>, pid: int)
    requires Table(t) && pid != FREE && Admit(t, pid).1 != -1
    ensures var (t1, i) := Admit(t, pid);
      && Table(t1) && t1[i].pid == pid
      && t1[i].marks == (if pid in Sessions(t) then Sessions(t)[pid] else FRESH)
      && Sessions(t1) == Sessions(t)[pid := t1[i].marks]
  {
    var i := Find(t, pid, 0);
    if i != -1 {
      assert Sessions(t)[pid] == t[i].marks;
    } else {
      var free := Find(t, FREE, 0);
      var t1 := t[free := Slot(pid, FRESH)];
      assert Unique(t1);
      FreshIsStart();
      SessionsWritten(t, free, Slot(pid, FRESH));
    }
  }

  /** Writing to the slot of an admitted client, freeing it or changing its marks. */
  lemma SlotWrite(t: seq<Slot>, i: nat, slot: Slot)
    requires Table(t) && i < |t| && t[i].pid != FREE
    requires slot.pid == FREE || slot.pid == t[i].pid
    requires Sized(slot.marks) && (slot.pid != FREE ==> Marked(slot.marks))
    ensures Table(t[i := slot])
    ensures Sessions(t[i := slot])
         == if slot.pid == FREE then Sessions(t) - {t[i].pid} else Sessions(t)[slot.pid := slot.marks]
  {
    assert Unique(t[i := slot]);
    if slot.pid == FREE {
      SessionsFreed(t, i, slot);
    } else {
      SessionsWritten(t, i, slot);
    }
  }

  lemma FreedSlot(t: seq<Slot>, pid: int)
    requires Table(t) && pid != FREE && Admit(t, pid).1 != -1
    ensures var (t1, i) := Admit(t, pid);
      && Table(t1[i := t1[i].(pid := FREE)])
      && Sessions(t1[i := t1[i].(pid := FREE)]) == Sessions(t) - {pid}
  {
    hide Admit, Sessions;
    var (t1, i) := Admit(t, pid);
    AdmitRefines(t, pid);
    SlotWrite(t1, i, t1[i].(pid := FREE));
    assert Sessions(t1) - {pid} == Sessions(t) - {pid};
  }

  lemma WrittenSlot(t: seq<Slot>, pid: int, after: Session)
    requires Table(t) && pid != FREE && Admit(t, pid).1 != -1 && Marked(after)
    ensures var (t1, i) := Admit(t, pid);
      && Table(t1[i := t1[i].(marks := after)])
      && Sessions(t1[i := t1[i].(marks := after)]) == Sessions(t)[pid := after]
  {
    hide Admit, Sessions;
    var (t1, i) := Admit(t, pid);
    AdmitRefines(t, pid);
    SlotWrite(t1, i, t1[i].(marks := after));
    assert Sessions(t1)[pid := after] == Sessions(t)[pid := after];
  }

  lemma NotAdmitted(t: seq<Slot>, pid: int)
    requires IsTable(t) && Admit(t, pid).1 == -1
    ensures Admit(t, pid).0 == t
  {
  }

  /** The sixteen slots behave as a map of at most sixteen sessions: same state, same reply,
      never two slots for one client, and marks always in order. */
  lemma TableRefinesMap(t: seq<Slot>, msg: Message)
    requires Table(t) && msg.pid != FREE
    ensures Table(Serve(t, msg).0)
    ensures (Sessions(Serve(t, msg).0), Serve(t, msg).1) == MapServe(Sessions(t), msg)
  {
    hide Admit, Sessions, Apply, Parse, Unique, Marked;
    RefusedWhenFull(t, msg.pid);
    if Admit(t, msg.pid).1 == -1 {
      NotAdmitted(t, msg.pid);
    } else {
      AdmitRefines(t, msg.pid);
      FreedSlot(t, msg.pid);
      var c := Parse(msg.command);
      var marks := Admit(t, msg.pid).0[Admit(t, msg.pid).1].marks;
      MarksFollowRules(marks, c);
      WrittenSlot(t, msg.pid, Apply(marks, c).0);
    }
  }

  // ---------------------------------------------------------------- clients do not notice one another

  /** All messages in order, from an empty table; a refused or escape message has no reply. */
  function RunServer(zero: Session, msgs: seq<Message>): (r: (seq<Slot>, seq<Option<Message>>))
    requires Sized(zero)
    ensures IsTable(r.0) && |r.1| == |msgs|
  {
    if msgs == [] then (EmptyTable(zero), [])
    else
      var before := RunServer(zero, msgs[..|msgs| - 1]);
      var now := Serve(before.0, msgs[|msgs| - 1]);
      (now.0, before.1 + [now.1])
  }

  function Own(msgs: seq<Message>, pid: int): (r: seq<Message>) {
    if msgs == [] then []
    else Own(msgs[..|msgs| - 1], pid) + if msgs[|msgs| - 1].pid == pid then [msgs[|msgs| - 1]] else []
  }

  function RepliesTo(replies: seq<Option<Message>>, msgs: seq<Message>, pid: int): (r: seq<Option<Message>>)
    requires |replies| == |msgs|
  {
    if msgs == [] then []
    else RepliesTo(replies[..|msgs| - 1], msgs[..|msgs| - 1], pid)
         + if msgs[|msgs| - 1].pid == pid then [replies[|msgs| - 1]] else []
  }

  ghost function Lookup(t: seq<Slot>, pid: int): (r: Option<Session>)
    requires Table(t)
  {
    MapLookup(Sessions(t), pid)
  }

  /** A client that has the server for itself. */
  function ServeAlone(o: Option<Session>, msg: Message): (r: (Option<Session>, Option<Message>))
    requires o.Some? ==> Sized(o.value)
    ensures r.0.Some? ==> Sized(r.0.value)
  {
    if msg.command == ESCAPE then (None, None)
    else
      var (after, code) := Apply(if o.Some? then o.value else FRESH, Parse(msg.command));
      (Some(after), Some(ReplyMessage(msg, after, code)))
  }

  function RunAlone(o: Option<Session>, msgs: seq<Message>): (r: (Option<Session>, seq<Option<Message>>))
    requires o.Some? ==> Sized(o.value)
    ensures r.0.Some? ==> Sized(r.0.value)
  {
    if msgs == [] then (o, [])
    else
      var before := RunAlone(o, msgs[..|msgs| - 1]);
      var now := ServeAlone(before.0, msgs[|msgs| - 1]);
      (now.0, before.1 + [now.1])
  }

  /** No message of pid meets a full table. */
  predicate NeverRefused(zero: Session, msgs: seq<Message>, pid: int)
    requires Sized(zero)
  {
    forall k :: 0 <= k < |msgs| && msgs[k].pid == pid ==> Admit(RunServer(zero, msgs[..k]).0, pid).1 != -1
  }

  lemma {:induction false} RunKeepsTable(zero: Session, msgs: seq<Message>)
    requires Sized(zero) && forall k :: 0 <= k < |msgs| ==> msgs[k].pid != FREE
    ensures Table(RunServer(zero, msgs).0)
  {
    if msgs != [] {
      RunKeepsTable(zero, msgs[..|msgs| - 1]);
      TableRefinesMap(RunServer(zero, msgs[..|msgs| - 1]).0, msgs[|msgs| - 1]);
    }
  }

  function MapLookup(m: map<int, Session>, pid: int): (r: Option<Session>) {
    if pid in m then Some(m[pid]) else None
  }

  lemma MapSeenBy(m: map<int, Session>, msg: Message, pid: int)
    requires forall p :: p in m ==> Sized(m[p])
    ensures msg.pid != pid ==> MapLookup(MapServe(m, msg).0, pid) == MapLookup(m, pid)
    ensures msg.pid == pid && (pid in m || |m| < MAX_CLIENTS) ==>
      (MapLookup(MapServe(m, msg).0, pid), MapServe(m, msg).1) == ServeAlone(MapLookup(m, pid), msg)
  {
  }

  lemma ServeSeenBy(t: seq<Slot>, msg: Message, pid: int)
    requires Table(t) && msg.pid != FREE && pid != FREE
    requires msg.pid == pid ==> Admit(t, pid).1 != -1
    ensures Table(Serve(t, msg).0)
    ensures msg.pid != pid ==> Lookup(Serve(t, msg).0, pid) == Lookup(t, pid)
    ensures msg.pid == pid ==> (Lookup(Serve(t, msg).0, pid), Serve(t, msg).1) == ServeAlone(Lookup(t, pid), msg)
  {
    TableRefinesMap(t, msg);
    RefusedWhenFull(t, pid);
    MapSeenBy(Sessions(t), msg, pid);
  }

  /** Whatever the other clients send in between, a client that is never refused has the
      session and gets the replies it would have and get if it were alone. */
  lemma {:induction false} ClientsAreIndependent(zero: Session, msgs: seq<Message>, pid: int)
    requires Sized(zero) && pid != FREE
    requires forall k :: 0 <= k < |msgs| ==> msgs[k].pid != FREE
    requires NeverRefused(zero, msgs, pid)
    ensures Table(RunServer(zero, msgs).0)
    ensures Lookup(RunServer(zero, msgs).0, pid) == RunAlone(None, Own(msgs, pid)).0
    ensures RepliesTo(RunServer(zero, msgs).1, msgs, pid) == RunAlone(None, Own(msgs, pid)).1
  {
    RunKeepsTable(zero, msgs);
    if msgs != [] {
      var before, last := msgs[..|msgs| - 1], msgs[|msgs| - 1];
      assert forall k :: 0 <= k <= |before| ==> before[..k] == msgs[..k];
      RunKeepsTable(zero, before);
      ClientsAreIndependent(zero, before, pid);
      ServeSeenBy(RunServer(zero, before).0, last, pid);
      assert RunServer(zero, msgs).1[..|before|] == RunServer(zero, before).1;
      var own := Own(before, pid);
      if last.pid == pid {
        assert (own + [last])[..|own|] == own;
      } else {
        assert Own(msgs, pid) == own;
      }
    }
  }

  lemma {:induction false} RunAloneConcat(o: Option<Session>, a: seq<Message>, b: seq<Message>)
    requires o.Some? ==> Sized(o.value)
    ensures RunAlone(o, a + b).0 == RunAlone(RunAlone(o, a).0, b).0
    ensures RunAlone(o, a + b).1 == RunAlone(o, a).1 + RunAlone(RunAlone(o, a).0, b).1
  {
    hide ServeAlone;
    if b == [] {
      assert a + b == a;
    } else {
      RunAloneConcat(o, a, b[..|b| - 1]);
      assert (a + b)[..|a + b| - 1] == a + b[..|b| - 1];
    }
  }

  /** Only what a client sent since its last escape message matters. */
  lemma EscapeForgets(o: Option<Session>, a: seq<Message>, escape: Message, b: seq<Message>)
    requires o.Some? ==> Sized(o.value)
    requires escape.command == ESCAPE
    ensures RunAlone(o, a + [escape] + b).0 == RunAlone(None, b).0
    ensures RunAlone(o, a + [escape] + b).1 == RunAlone(o, a).1 + [None] + RunAlone(None, b).1
  {
    RunAloneConcat(o, a + [escape], b);
    assert (a + [escape])[..|a|] == a;
  }

  function Commands(msgs: seq<Message>): (r: seq<Command>)
    ensures |r| == |msgs|
  {
    if msgs == [] then [] else Commands(msgs[..|msgs| - 1]) + [Parse(msgs[|msgs| - 1].command)]
  }

  /** What a client sees between two escapes is one puzzle session from its first command on. */
  lemma {:induction false} AloneIsSession(msgs: seq<Message>)
    requires msgs != [] && forall k :: 0 <= k < |msgs| ==> msgs[k].command != ESCAPE
    ensures RunAlone(None, msgs).0 == Some(After(FRESH, Commands(msgs)))
    ensures |RunAlone(None, msgs).1| == |msgs|
    ensures forall k :: 0 <= k < |msgs| ==>
      var reply := Replies(FRESH, Commands(msgs))[k];
      RunAlone(None, msgs).1[k]
      == Some(Message(msgs[k].pid, if reply.code == 0 then msgs[k].status else reply.code, reply.text))
  {
    hide Apply, Parse, FormatState, ErrorText;
    var before, last := msgs[..|msgs| - 1], msgs[|msgs| - 1];
    assert Commands(msgs)[..|before|] == Commands(before);
    if before != [] {
      AloneIsSession(before);
    }
  }
}
