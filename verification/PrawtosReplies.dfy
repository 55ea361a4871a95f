/** Delivery of the replies: what a client receives over whole runs, whatever the
    partial and failing sends, and when exactly a session ends. */
module PrawtosReplies {
  import opened Bytes
  import opened Io
  import opened LinearBuffer
  import opened Feeding
  import opened Accounts
  import opened PrawtosSession
  import opened PrawtosSafety
  import opened PrawtosPipelining
  import opened PrawtosEffects
  import Auth = AuthParser
  import Cmd = PrawtosParser

  /** The bytes that send accepts for the session in one step. */
  function StepSent(w: World, e: Event, id: nat): seq<byte>
    requires Enabled(w, e)
  {
    if e.Writable? && e.id == id && e.send.Sent? then w.sessions[id].output.contents[..e.send.n] else []
  }

  /** The reply that a handler queues for the session in one step. */
  function StepQueued(w: World, e: Event, id: nat): seq<byte>
    requires Enabled(w, e)
  {
    var r := Step(w, e);
    if e.Readable? && e.id == id && r.Running? && id in r.world.sessions then r.world.sessions[id].output.contents
    else []
  }

  function SentTo(w: World, run: seq<Event>, id: nat): seq<byte>
    requires ValidRun(w, run)
    decreases |run|
  {
    if run == [] then []
    else
      var r := Step(w, run[0]);
      StepSent(w, run[0], id) + if r.Running? then SentTo(r.world, run[1..], id) else []
  }

  function QueuedFor(w: World, run: seq<Event>, id: nat): seq<byte>
    requires ValidRun(w, run)
    decreases |run|
  {
    if run == [] then []
    else
      var r := Step(w, run[0]);
      StepQueued(w, run[0], id) + if r.Running? then QueuedFor(r.world, run[1..], id) else []
  }

  // ---------------------------------------------------------------------------
  // One step

  /** A session in a write state that goes on keeps exactly what was not sent; it
      waits for the next command if and only if nothing is left. */
  lemma WriteKeepsRest(w: World, id: nat, r: SendResult)
    requires WorldInv(w) && Enabled(w, Writable(id, r)) && id in Step(w, Writable(id, r)).world.sessions
    requires Step(w, Writable(id, r)).Running?
    ensures var s, t := w.sessions[id], Step(w, Writable(id, r)).world.sessions[id];
            var n := if r.Sent? then r.n else 0;
            && t.output.contents == s.output.contents[n..]
            && t.current == (if n == |s.output.contents| then CmdRead else s.current)
            && t.interest == (if n == |s.output.contents| then READ_ONLY else WRITE_ONLY)
  {
    WriteKeepsInv(w.sessions[id], w.users, r);
  }

  lemma ReadFindsNothingPending(w: World, id: nat, r: RecvResult, env: Env)
    requires WorldInv(w) && Enabled(w, Readable(id, r, env))
    ensures w.sessions[id].output.contents == []
  {
  }

  lemma StepDelivers(w: World, e: Event, id: nat)
    requires WorldInv(w) && Enabled(w, e) && Step(w, e).Running? && id in w.sessions && id in Step(w, e).world.sessions
    ensures w.sessions[id].output.contents + StepQueued(w, e, id)
            == StepSent(w, e, id) + Step(w, e).world.sessions[id].output.contents
  {
    if e.Accept? || e.id != id {
      OthersUntouched(w, e, id);
    } else if e.Readable? {
      ReadFindsNothingPending(w, id, e.recv, e.env);
    } else {
      WriteKeepsRest(w, id, e.send);
      var all := w.sessions[id].output.contents;
      assert e.send.Sent? ==> all == all[..e.send.n] + all[e.send.n..];
      assert all[0..] == all;
    }
  }

  // ---------------------------------------------------------------------------
  // Whole runs

  lemma Joined(start: seq<byte>, in1: seq<byte>, out1: seq<byte>, mid: seq<byte>,
               in2: seq<byte>, out2: seq<byte>, end: seq<byte>)
    requires start + in1 == out1 + mid && mid + in2 == out2 + end
    ensures start + (in1 + in2) == (out1 + out2) + end
  {
    calc {
      start + (in1 + in2);
      (start + in1) + in2;
      out1 + (mid + in2);
      (out1 + out2) + end;
    }
  }

  /** In every run, for every session that is still there at the end: what was
      pending and all replies queued since are what the client was sent, in order,
      followed by what is still pending. */
  lemma {:induction false} RepliesDelivered(w: World, run: seq<Event>, id: nat)
    requires WorldInv(w) && ValidRun(w, run) && Exec(w, run).Running?
    requires id in w.sessions && id in Exec(w, run).world.sessions
    ensures w.sessions[id].output.contents + QueuedFor(w, run, id)
            == SentTo(w, run, id) + Exec(w, run).world.sessions[id].output.contents
    decreases |run|
  {
    if run != [] {
      var w' := Step(w, run[0]).world;
      StepKeepsInv(w, run[0]);
      LogOfRun(w, run, id);
      if id !in w'.sessions {
        GoneStaysGone(w', run[1..], id);
      } else {
        StepDelivers(w, run[0], id);
        RepliesDelivered(w', run[1..], id);
        Joined(w.sessions[id].output.contents, StepQueued(w, run[0], id), StepSent(w, run[0], id),
               w'.sessions[id].output.contents, QueuedFor(w', run[1..], id), SentTo(w', run[1..], id),
               Exec(w, run).world.sessions[id].output.contents);
      }
    }
  }

  /** So whenever a session waits for its next command, the client has been sent
      every reply completely. */
  lemma AllRepliesSent(w: World, run: seq<Event>, id: nat)
    requires WorldInv(w) && ValidRun(w, run) && Exec(w, run).Running?
    requires id in w.sessions && id in Exec(w, run).world.sessions && w.sessions[id].output.contents == []
    ensures Exec(w, run).world.sessions[id].current == CmdRead ==> SentTo(w, run, id) == QueuedFor(w, run, id)
    ensures SentTo(w, run, id) <= QueuedFor(w, run, id)
  {
    RepliesDelivered(w, run, id);
    RunKeepsInv(w, run);
    assert [] + QueuedFor(w, run, id) == QueuedFor(w, run, id);
    assert SentTo(w, run, id) + [] == SentTo(w, run, id);
  }

  // ---------------------------------------------------------------------------
  // The end of a session

  /** The event is one of the ways a session can end. */
  predicate EndsSession(s: Session, e: Event)
    requires !e.Accept?
  {
    match e
    case Readable(_, r, _) =>
      var t := HandleFirst(s);
      r.RecvFailed? || r.bytes == []
      || (if t.current == AuthRead then Auth.IsError(AuthFed(t, r.bytes).auth.state)
          else Cmd.IsError(CmdFed(t, r.bytes).cmd.state)
               || (Cmd.Done(CmdFed(t, r.bytes).cmd) && CmdFed(t, r.bytes).cmd.kind == 2))
    case Writable(_, r) =>
      (s.current == AuthWrite && s.authStatus != 0) || (s.current == CmdWrite && s.cmd.kind == 3 && r.Sent? && r.n > 0)
    case Accept => false
  }

  lemma CmdReadEnds(s: Session, id: nat, users: seq<Account>, r: RecvResult, env: Env)
    requires s.current == CmdRead && SessionInv(s) && Accounts.Valid(users)
    ensures var o := OnCmdRead(s, id, users, r, env);
            o.Next? ==> (o.next == Errored || o.next == Finished <==> EndsSession(s, Readable(id, r, env)))
  {
    if r.Got? && r.bytes != [] {
      var t := CmdFed(s, r.bytes);
      ConsumeKeepsWellFormed(s.cmd, s.input.contents + r.bytes);
      if Cmd.Done(t.cmd) {
        CmdDoneEnds(t, id, users, env);
      }
    }
  }

  lemma CmdDoneEnds(t: Session, id: nat, users: seq<Account>, env: Env)
    requires t.output == Empty(BUFFER_SIZE) && Cmd.WellFormed(t.cmd) && Cmd.Done(t.cmd) && Accounts.Valid(users)
    ensures var o := CmdDone(t, id, users, env);
            o.Next? ==> (o.next == Errored || o.next == Finished <==> Cmd.IsError(t.cmd.state) || t.cmd.kind == 2)
  {
  }

  lemma AuthReadEnds(s: Session, id: nat, users: seq<Account>, r: RecvResult)
    requires s.current == AuthRead && SessionInv(s)
    ensures var o := OnAuthRead(s, id, users, r);
            o.Next? ==> (o.next == Errored || o.next == Finished <==>
                           r.RecvFailed? || r.bytes == [] || Auth.IsError(AuthFed(s, r.bytes).auth.state))
  {
  }

  /** A session ends exactly on the end of its stream or an error of recv, on a
      request that its parser rejects, on a SNIFF, on the first write after a
      refused login, and on the write that sends the answer to a QUIT. */
  lemma EndsExactly(w: World, e: Event)
    requires WorldInv(w) && Enabled(w, e) && !e.Accept? && Step(w, e).Running?
    ensures e.id !in Step(w, e).world.sessions <==> EndsSession(w.sessions[e.id], e)
  {
    var s := w.sessions[e.id];
    match e
    case Readable(id, r, env) =>
      var t := HandleFirst(s);
      if t.current == AuthRead {
        AuthReadEnds(t, id, w.users, r);
      } else {
        CmdReadEnds(s, id, w.users, r, env);
      }
    case Writable(id, r) => WriteKeepsInv(s, w.users, r);
  }

  /** The answer to a QUIT is sent whole by the write that ends the session. */
  lemma QuitIsAnswered(w: World, id: nat, r: SendResult)
    requires WorldInv(w) && Enabled(w, Writable(id, r))
    requires w.sessions[id].current == CmdWrite && w.sessions[id].cmd.kind == 3
    ensures Step(w, Writable(id, r)).Running?
    ensures id !in Step(w, Writable(id, r)).world.sessions <==> StepSent(w, Writable(id, r), id) == [0]
  {
    WriteKeepsUsers(w.sessions[id], w.users, r);
    EndsExactly(w, Writable(id, r));
    var out := w.sessions[id].output.contents;
    assert out == [0] && out[..1] == [0] && out[..0] == [];
  }

  /** A refused login gets one write and no more: the client receives the whole
      refusal exactly when that write sends both of its bytes. */
  lemma RefusalGetsOneWrite(w: World, id: nat, r: SendResult)
    requires WorldInv(w) && Enabled(w, Writable(id, r))
    requires w.sessions[id].current == AuthWrite && w.sessions[id].authStatus != 0
    ensures Step(w, Writable(id, r)) == Running(w.(sessions := w.sessions - {id}), [])
    ensures StepSent(w, Writable(id, r), id) == [1, 3] <==> r == Sent(2)
  {
    var out := w.sessions[id].output.contents;
    assert out == [1, 3] && out[..2] == [1, 3];
    if r.Sent? && r.n < 2 {
      assert |out[..r.n]| == r.n;
    }
  }
}
