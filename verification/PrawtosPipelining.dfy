/** Commands that a client sends ahead: a command that is already complete in the
    read buffer is not executed until recv brings at least one more byte, and never
    if the buffer has no room for that byte. */
module PrawtosPipelining {
  import opened Bytes
  import opened Io
  import opened LinearBuffer
  import opened Feeding
  import opened Accounts
  import opened PrawtosSession
  import opened PrawtosSafety
  import opened PrawtosLogin
  import Cmd = PrawtosParser

  /** recv returns bytes for this session. */
  predicate Brings(e: Event, id: nat) {
    e.Readable? && e.id == id && e.recv.Got? && e.recv.bytes != []
  }

  predicate Quiet(run: seq<Event>, id: nat) {
    forall k :: 0 <= k < |run| ==> !Brings(run[k], id)
  }

  predicate NoCommand(log: seq<Action>, id: nat) {
    forall a :: a in log ==> !(a.Executed? && a.id == id)
  }

  lemma QuietRead(w: World, i: nat, r: RecvResult, env: Env, id: nat)
    requires WorldInv(w) && Enabled(w, Readable(i, r, env)) && !Brings(Readable(i, r, env), id)
    requires Step(w, Readable(i, r, env)).Running?
    ensures var next := Step(w, Readable(i, r, env));
            && NoCommand(next.log, id)
            && (id in w.sessions && id in next.world.sessions ==> next.world.sessions[id] == w.sessions[id])
  {
    ReadKeepsInv(w.sessions[i], i, w.users, r, env);
    ReadKeepsTrust(w.sessions[i], i, w.users, r, env);
    if i == id {
      NoBytes(w.sessions[i], i, w.users, r, env);
    }
  }

  lemma QuietWrite(w: World, i: nat, r: SendResult, id: nat)
    requires WorldInv(w) && Enabled(w, Writable(i, r)) && Step(w, Writable(i, r)).Running?
    ensures var next := Step(w, Writable(i, r));
            && NoCommand(next.log, id)
            && (id in w.sessions && w.sessions[id].current == CmdRead && id in next.world.sessions ==>
                  next.world.sessions[id] == w.sessions[id])
  {
    WriteKeepsInv(w.sessions[i], w.users, r);
    WriteKeepsTrust(w.sessions[i], i, w.users, r);
  }

  /** A step without bytes for the session executes none of its commands, and a
      session that waits for a command stays as it is or ends. */
  lemma QuietStep(w: World, e: Event, id: nat)
    requires WorldInv(w) && Enabled(w, e) && !Brings(e, id) && Step(w, e).Running?
    ensures NoCommand(Step(w, e).log, id)
    ensures id in w.sessions && w.sessions[id].current == CmdRead && id in Step(w, e).world.sessions ==>
              Step(w, e).world.sessions[id] == w.sessions[id]
    ensures WorldInv(Step(w, e).world) && w.accepted <= Step(w, e).world.accepted
  {
    StepKeepsInv(w, e);
    match e
    case Accept =>
    case Readable(i, r, env) => QuietRead(w, i, r, env, id);
    case Writable(i, r) => QuietWrite(w, i, r, id);
  }

  lemma NoBytes(s: Session, id: nat, users: seq<Account>, r: RecvResult, env: Env)
    requires !ReadAborts(s) && (r.RecvFailed? || r.bytes == [])
    ensures var o := StmRead(s, id, users, r, env); o.Next? && o.next == Errored && o.log == []
  {
  }

  /** The log of a run is that of its first step and that of the others. */
  lemma LogOfRun(w: World, run: seq<Event>, id: nat)
    requires ValidRun(w, run) && run != [] && Exec(w, run).Running?
    ensures Step(w, run[0]).Running? && Exec(Step(w, run[0]).world, run[1..]).Running?
    ensures Exec(w, run).world == Exec(Step(w, run[0]).world, run[1..]).world
    ensures NoCommand(Step(w, run[0]).log, id) && NoCommand(Exec(Step(w, run[0]).world, run[1..]).log, id) ==>
              NoCommand(Exec(w, run).log, id)
  {
  }

  /** Over every run without bytes for the session, whatever the other sessions
      do: none of its commands is executed, and what it has buffered stays. */
  lemma {:induction false} BufferedCommandsWait(w: World, run: seq<Event>, id: nat)
    requires WorldInv(w) && ValidRun(w, run) && Exec(w, run).Running? && Quiet(run, id)
    requires id in w.sessions && w.sessions[id].current == CmdRead
    ensures NoCommand(Exec(w, run).log, id)
    ensures id in Exec(w, run).world.sessions ==> Exec(w, run).world.sessions[id] == w.sessions[id]
    decreases |run|
  {
    if run != [] {
      var w' := Step(w, run[0]).world;
      assert !Brings(run[0], id);
      LogOfRun(w, run, id);
      QuietStep(w, run[0], id);
      if id in w'.sessions {
        BufferedCommandsWait(w', run[1..], id);
      } else {
        GoneStaysGone(w', run[1..], id);
      }
    }
  }

  /** A session that ended executes nothing and does not come back. */
  lemma {:induction false} GoneStaysGone(w: World, run: seq<Event>, id: nat)
    requires WorldInv(w) && ValidRun(w, run) && Exec(w, run).Running? && id !in w.sessions && id < w.accepted
    ensures NoCommand(Exec(w, run).log, id) && id !in Exec(w, run).world.sessions
    decreases |run|
  {
    if run != [] {
      LogOfRun(w, run, id);
      StepKeepsInv(w, run[0]);
      GoneStep(w, run[0], id);
      GoneStaysGone(Step(w, run[0]).world, run[1..], id);
    }
  }

  lemma GoneStep(w: World, e: Event, id: nat)
    requires WorldInv(w) && Enabled(w, e) && id !in w.sessions && id < w.accepted && Step(w, e).Running?
    ensures var r := Step(w, e); NoCommand(r.log, id) && id !in r.world.sessions && id < r.world.accepted
  {
    match e
    case Accept =>
    case Readable(i, r, env) =>
      ReadKeepsInv(w.sessions[i], i, w.users, r, env);
      ReadKeepsTrust(w.sessions[i], i, w.users, r, env);
    case Writable(i, r) =>
      WriteKeepsInv(w.sessions[i], w.users, r);
      WriteKeepsTrust(w.sessions[i], i, w.users, r);
  }

  // ---------------------------------------------------------------------------
  // What releases a buffered command

  /** The session waits for a command, and its buffer already starts with `m`. */
  predicate HoldsCommand(w: World, id: nat, m: Cmd.Message, rest: seq<byte>) {
    && id in w.sessions && w.sessions[id].current == CmdRead && Cmd.Fresh(w.sessions[id].cmd)
    && m.Valid() && w.sessions[id].input.contents == Cmd.Encode(m) + rest
  }

  /** The read completes `m` inside the parser's fields, and its step is
      cmd_process for it. */
  predicate HandsOver(w: World, id: nat, r: RecvResult, env: Env, m: Cmd.Message)
    requires id in w.sessions && Enabled(w, Readable(id, r, env))
  {
    r.Got? && r.bytes != [] &&
    var t := CmdFed(w.sessions[id], r.bytes);
    && t.cmd.state == Cmd.Finished && Cmd.Decode(t.cmd) == m && !Cmd.Overran(t.cmd)
    && Step(w, Readable(id, r, env)) == Settle(w, id, Jumped(CmdDone(t, id, w.users, env)))
  }

  lemma FedIs(s: Session, bytes: seq<byte>, input: seq<byte>)
    requires s.input.contents + bytes == input
    ensures CmdFed(s, bytes).cmd == Consume(Cmd.Feed, Cmd.Done, s.cmd, input).0
  {
  }

  /** Bytes behind a buffered command do not matter to it. */
  lemma {:induction false} BytesComplete(s: Session, m: Cmd.Message, more: seq<byte>, bytes: seq<byte>)
    requires Cmd.Fresh(s.cmd) && m.Valid() && s.input.contents + bytes == Cmd.Encode(m) + more
    ensures var p := CmdFed(s, bytes).cmd;
            p.state == Cmd.Finished && Cmd.Decode(p) == m && (Cmd.Overran(p) <==> HasLongField(m))
  {
    var input := Cmd.Encode(m) + more;
    var p := CmdFed(s, bytes).cmd;
    FedIs(s, bytes, input);
    ParsedMessage(s.cmd, m, more, input, p);
  }

  lemma {:induction false} ParsedMessage(start: Cmd.Prawtos, m: Cmd.Message, rest: seq<byte>, input: seq<byte>,
                                         p: Cmd.Prawtos)
    requires Cmd.Fresh(start) && m.Valid() && input == Cmd.Encode(m) + rest
    requires p == Consume(Cmd.Feed, Cmd.Done, start, input).0
    ensures p.state == Cmd.Finished && Cmd.Decode(p) == m && (Cmd.Overran(p) <==> HasLongField(m))
  {
    Cmd.ParsesMessage(start, m, rest);
    LongFieldsOverrun(p, m);
  }

  lemma OverranFaults(w: World, id: nat, bytes: seq<byte>, env: Env, m: Cmd.Message)
    requires id in w.sessions && w.sessions[id].current == CmdRead && bytes != []
    requires Enabled(w, Readable(id, Got(bytes), env)) && Cmd.Overran(CmdFed(w.sessions[id], bytes).cmd)
    ensures Step(w, Readable(id, Got(bytes), env)).Faulted? && !HandsOver(w, id, Got(bytes), env, m)
  {
  }

  lemma InsideHandsOver(w: World, id: nat, bytes: seq<byte>, env: Env, m: Cmd.Message, t: Session)
    requires AwaitsCommand(w, id, env) && bytes != [] && Enabled(w, Readable(id, Got(bytes), env))
    requires t == CmdFed(w.sessions[id], bytes) && !Cmd.Overran(t.cmd)
    requires t.cmd.state == Cmd.Finished && Cmd.Decode(t.cmd) == m
    ensures HandsOver(w, id, Got(bytes), env, m)
  {
    CommandLastPiece(w, id, bytes, env, t);
  }

  /** What the command holds and what follows it decide every read of bytes. */
  lemma {:induction false} BytesDecide(w: World, id: nat, m: Cmd.Message, more: seq<byte>, bytes: seq<byte>, env: Env)
    requires AwaitsCommand(w, id, env) && Cmd.Fresh(w.sessions[id].cmd) && m.Valid()
    requires w.sessions[id].input.contents + bytes == Cmd.Encode(m) + more
    requires Enabled(w, Readable(id, Got(bytes), env)) && bytes != []
    ensures HandsOver(w, id, Got(bytes), env, m) <==> !HasLongField(m)
    ensures HasLongField(m) ==> Step(w, Readable(id, Got(bytes), env)).Faulted?
  {
    BytesComplete(w.sessions[id], m, more, bytes);
    if HasLongField(m) {
      OverranFaults(w, id, bytes, env, m);
    } else {
      InsideHandsOver(w, id, bytes, env, m, CmdFed(w.sessions[id], bytes));
    }
  }

  lemma NoRoomEnds(w: World, id: nat, r: RecvResult, env: Env)
    requires WorldInv(w) && id in w.sessions && w.sessions[id].current == CmdRead && w.sessions[id].input.Room() == 0
    requires Enabled(w, Readable(id, r, env))
    ensures Step(w, Readable(id, r, env)) == Running(w.(sessions := w.sessions - {id}), [])
  {
  }

  lemma ReadDecides(w: World, id: nat, m: Cmd.Message, rest: seq<byte>, r: RecvResult, env: Env)
    requires AwaitsCommand(w, id, env) && HoldsCommand(w, id, m, rest)
    requires Enabled(w, Readable(id, r, env)) && Brings(Readable(id, r, env), id)
    ensures HandsOver(w, id, r, env, m) <==> !HasLongField(m)
    ensures HasLongField(m) ==> Step(w, Readable(id, r, env)).Faulted?
  {
    assert (Cmd.Encode(m) + rest) + r.bytes == Cmd.Encode(m) + (rest + r.bytes);
    BytesDecide(w, id, m, rest + r.bytes, r.bytes, env);
  }

  /** A buffered command is executed by some read exactly when the buffer has
      room left and no field of it is 255 bytes long. */
  lemma ReleasedIffRoom(w: World, id: nat, m: Cmd.Message, rest: seq<byte>, env: Env)
    requires WorldInv(w) && HoldsCommand(w, id, m, rest) && Lists(env, w.users)
    ensures (exists r :: Enabled(w, Readable(id, r, env)) && HandsOver(w, id, r, env, m)) <==>
            w.sessions[id].input.Room() > 0 && !HasLongField(m)
  {
    if w.sessions[id].input.Room() > 0 {
      ReadDecides(w, id, m, rest, Got([0]), env);
    }
    forall r | Enabled(w, Readable(id, r, env)) && HandsOver(w, id, r, env, m) ensures !HasLongField(m) {
      ReadDecides(w, id, m, rest, r, env);
    }
  }

  /** With room, every read of any bytes has it executed, or is undefined for a
      field of 255 bytes; without room, every read ends the session. */
  lemma EveryReadDecides(w: World, id: nat, m: Cmd.Message, rest: seq<byte>, r: RecvResult, env: Env)
    requires WorldInv(w) && HoldsCommand(w, id, m, rest) && Enabled(w, Readable(id, r, env))
    ensures Brings(Readable(id, r, env), id) ==>
              if HasLongField(m) then Step(w, Readable(id, r, env)).Faulted? else HandsOver(w, id, r, env, m)
    ensures w.sessions[id].input.Room() == 0 ==>
              Step(w, Readable(id, r, env)) == Running(w.(sessions := w.sessions - {id}), [])
  {
    if Brings(Readable(id, r, env), id) {
      ReadDecides(w, id, m, rest, r, env);
    }
    if w.sessions[id].input.Room() == 0 {
      NoRoomEnds(w, id, r, env);
    }
  }

  /** The byte that releases a command stays buffered behind what followed it. */
  lemma {:induction false} NextByteReleases(w: World, id: nat, m: Cmd.Message, rest: seq<byte>, b: byte, env: Env)
    returns (t: Session)
    requires AwaitsCommand(w, id, env) && HoldsCommand(w, id, m, rest) && !HasLongField(m)
    requires w.sessions[id].input.Room() > 0
    ensures Cmd.Decode(t.cmd) == m && t.cmd.state == Cmd.Finished && t.input.contents == rest + [b]
    ensures ValidRun(w, Deliver(id, [[b]], env))
    ensures Exec(w, Deliver(id, [[b]], env)) == Settle(w, id, Jumped(CmdDone(t, id, w.users, env)))
  {
    var s, chunks := w.sessions[id], [[b]];
    assert Concat(chunks) == [b] + [] == [b];
    assert (Cmd.Encode(m) + rest) + [b] == Cmd.Encode(m) + (rest + [b]);
    var p := MessageCompletes(s, chunks, m, rest + [b]);
    t := Completed(s, chunks, p, rest + [b]);
    CommandArrives(w, id, chunks, env, p, rest + [b], t);
  }

  /** Whatever happens after the buffer is full: none of the commands in it is
      ever executed. */
  lemma {:induction false} FullBufferIsFinal(w: World, run: seq<Event>, id: nat)
    requires WorldInv(w) && ValidRun(w, run) && Exec(w, run).Running?
    requires id in w.sessions && w.sessions[id].current == CmdRead && w.sessions[id].input.Room() == 0
    ensures NoCommand(Exec(w, run).log, id)
    decreases |run|
  {
    if run != [] {
      var w' := Step(w, run[0]).world;
      assert !Brings(run[0], id);
      LogOfRun(w, run, id);
      QuietStep(w, run[0], id);
      if id in w'.sessions {
        FullBufferIsFinal(w', run[1..], id);
      } else {
        GoneStaysGone(w', run[1..], id);
      }
    }
  }

  // ---------------------------------------------------------------------------
  // How such sessions are reached

  /** A GET and more bytes in one piece. */
  function GetAnd(ahead: seq<byte>): seq<byte> {
    Cmd.Encode(Cmd.Get(0)) + ahead
  }

  function GetRun(id: nat, ahead: seq<byte>, env: Env): seq<Event> {
    [Readable(id, Got(GetAnd(ahead)), env), Writable(id, Sent(8))]
  }

  /** A GET and any bytes ahead in one recv, and the reply sent completely: the
      session waits for a command with those bytes in its buffer, whose room is
      less by all that was received. */
  lemma SentAheadStaysBuffered(w: World, id: nat, ahead: seq<byte>, env: Env) returns (w': World)
    requires AwaitsCommand(w, id, env) && Cmd.Fresh(w.sessions[id].cmd) && 0 < |ahead| <= BUFFER_SIZE - 2
    requires w.sessions[id].input == Empty(BUFFER_SIZE) && w.sessions[id].output == Empty(BUFFER_SIZE)
    ensures ValidRun(w, GetRun(id, ahead, env))
    ensures Exec(w, GetRun(id, ahead, env)) == Running(w', [Executed(id, NoChange)])
    ensures id in w'.sessions && w'.sessions[id].current == CmdRead && Cmd.Fresh(w'.sessions[id].cmd)
    ensures w'.sessions[id].input.contents == ahead && w'.sessions[id].input.Room() == BUFFER_SIZE - 2 - |ahead|
  {
    var mid := FirstOfTwo(w, id, ahead, env);
    w' := AnswerSent(mid, id);
    JoinRuns(w, Readable(id, Got(GetAnd(ahead)), env), mid, [Executed(id, NoChange)], Writable(id, Sent(8)));
    assert [Executed(id, NoChange)] + [] == [Executed(id, NoChange)];
  }

  /** It happens: 4096 bytes in one recv, the first two of them a GET, leave a full
      buffer. The next read ends the session, and no command in it is executed. */
  lemma FullBufferHappens(w: World, id: nat, m: Cmd.Message, rest: seq<byte>, env: Env) returns (w': World)
    requires WorldInv(w) && AwaitsCommand(w, id, env) && Cmd.Fresh(w.sessions[id].cmd) && m.Valid()
    requires w.sessions[id].input == Empty(BUFFER_SIZE) && w.sessions[id].output == Empty(BUFFER_SIZE)
    requires |Cmd.Encode(m)| + |rest| == BUFFER_SIZE - 2
    ensures var run := GetRun(id, Cmd.Encode(m) + rest, env);
            ValidRun(w, run) && Exec(w, run) == Running(w', [Executed(id, NoChange)])
    ensures HoldsCommand(w', id, m, rest) && w'.sessions[id].input.Room() == 0
    ensures forall later :: ValidRun(w', later) && Exec(w', later).Running? ==> NoCommand(Exec(w', later).log, id)
  {
    w' := SentAheadStaysBuffered(w, id, Cmd.Encode(m) + rest, env);
    RunKeepsInv(w, GetRun(id, Cmd.Encode(m) + rest, env));
    forall later | ValidRun(w', later) && Exec(w', later).Running? ensures NoCommand(Exec(w', later).log, id) {
      FullBufferIsFinal(w', later, id);
    }
  }

  /** The GET is executed, and what was sent ahead remains buffered. */
  lemma {:induction false} FirstOfTwo(w: World, id: nat, ahead: seq<byte>, env: Env) returns (mid: World)
    requires AwaitsCommand(w, id, env) && Cmd.Fresh(w.sessions[id].cmd) && 0 < |ahead| <= BUFFER_SIZE - 2
    requires w.sessions[id].input == Empty(BUFFER_SIZE) && w.sessions[id].output == Empty(BUFFER_SIZE)
    ensures var run := [Readable(id, Got(GetAnd(ahead)), env)];
            ValidRun(w, run) && Exec(w, run) == Running(mid, [Executed(id, NoChange)])
    ensures id in mid.sessions && mid.sessions[id].current == CmdWrite && mid.sessions[id].interest == WRITE_ONLY
    ensures mid.sessions[id].status == SUCCESS && mid.sessions[id].cmd.kind == Cmd.GET
    ensures |mid.sessions[id].output.contents| == 8 && mid.sessions[id].input.contents == ahead
    ensures mid.sessions[id].input.Room() == BUFFER_SIZE - 2 - |ahead|
  {
    var chunks := [GetAnd(ahead)];
    assert Concat(chunks) == chunks[0] + [] == chunks[0] && [] + chunks[0] == chunks[0];
    var p := MessageCompletes(w.sessions[id], chunks, Cmd.Get(0), ahead);
    var t := Completed(w.sessions[id], chunks, p, ahead);
    CommandArrives(w, id, chunks, env, p, ahead, t);
    assert Deliver(id, chunks, env) == [Readable(id, Got(GetAnd(ahead)), env)];
    mid := GetBytesAnswered(w, id, t, env);
  }

  lemma GetBytesAnswered(w: World, id: nat, t: Session, env: Env) returns (mid: World)
    requires id in w.sessions && t.current == CmdRead && t.output == Empty(BUFFER_SIZE)
    requires t.cmd.state == Cmd.Finished && Cmd.Decode(t.cmd) == Cmd.Get(0)
    ensures Settle(w, id, Jumped(CmdDone(t, id, w.users, env))) == Running(mid, [Executed(id, NoChange)])
    ensures id in mid.sessions && mid.users == w.users
    ensures mid.sessions[id] == t.(current := CmdWrite, interest := WRITE_ONLY, status := SUCCESS,
                                   output := mid.sessions[id].output)
    ensures |mid.sessions[id].output.contents| == 8 && mid.sessions[id].output.capacity == BUFFER_SIZE
  {
    SettleLive(w, id, CmdDone(t, id, w.users, env));
    mid := Settle(w, id, Jumped(CmdDone(t, id, w.users, env))).world;
  }

  lemma AnswerSent(mid: World, id: nat) returns (w': World)
    requires id in mid.sessions && mid.sessions[id].current == CmdWrite && mid.sessions[id].interest == WRITE_ONLY
    requires mid.sessions[id].status == SUCCESS && mid.sessions[id].cmd.kind == Cmd.GET
    requires |mid.sessions[id].output.contents| == 8
    ensures Enabled(mid, Writable(id, Sent(8))) && Step(mid, Writable(id, Sent(8))) == Running(w', [])
    ensures id in w'.sessions && w'.sessions[id].current == CmdRead && Cmd.Fresh(w'.sessions[id].cmd)
    ensures w'.sessions[id].input == mid.sessions[id].input
  {
    w' := Step(mid, Writable(id, Sent(8))).world;
  }

  lemma JoinRuns(w: World, e: Event, mid: World, log: seq<Action>, f: Event)
    requires ValidRun(w, [e]) && Exec(w, [e]) == Running(mid, log)
    requires Enabled(mid, f) && Step(mid, f).Running?
    ensures ValidRun(w, [e, f]) && Exec(w, [e, f]) == Running(Step(mid, f).world, log + Step(mid, f).log)
  {
    LastEvent(w, e);
    LastEvent(mid, f);
    assert [e, f][1..] == [f] && [e][1..] == [];
  }
}
