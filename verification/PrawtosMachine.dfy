/** The prawtos state table as an instance of the engine in Stm: the arrivals and
    departures that a session's states stand for. */
module PrawtosMachine {
  import opened Io
  import opened Accounts
  import opened PrawtosSession
  import opened PrawtosSafety
  import Stm

  const LAST_STATE: nat := 5

  /** The numbers of the rows of prawtos_init_states. */
  function Index(st: State): nat {
    match st
    case AuthRead => 0
    case AuthWrite => 1
    case CmdRead => 2
    case CmdWrite => 3
    case Finished => 4
    case Errored => 5
    case Unstarted => 0
  }

  function CurrentOf(st: State): Stm.Current {
    if st == Unstarted then Stm.NotStarted else Stm.At(Index(st))
  }

  function StateOf(c: Stm.Current): (st: State)
    ensures c.NotStarted? || c.state <= LAST_STATE ==> CurrentOf(st) == c
  {
    if c.NotStarted? then Unstarted
    else if c.state == 0 then AuthRead
    else if c.state == 1 then AuthWrite
    else if c.state == 2 then CmdRead
    else if c.state == 3 then CmdWrite
    else if c.state == 4 then Finished
    else Errored
  }

  /** The engine of a session with the given history of callbacks. */
  function MachineOf(s: Session, calls: seq<Stm.Callback>): Stm.Machine {
    Stm.Machine(Index(AuthRead), LAST_STATE, CurrentOf(s.current), calls)
  }

  lemma HandleFirstJoins(s: Session, calls: seq<Stm.Callback>)
    ensures var m := Stm.Started(MachineOf(s, calls)); m == MachineOf(HandleFirst(s), m.calls)
  {
  }

  lemma JumpJoins(s: Session, next: State, calls: seq<Stm.Callback>)
    requires next != Unstarted
    ensures var m := Stm.Jumped(MachineOf(s, calls), Index(next)); m == MachineOf(Jump(s, next), m.calls)
  {
  }

  /** A handler leaves the current state to the engine, and never answers the
      state before the first event. */
  predicate LeavesCurrent(t: Session, o: Outcome) {
    o.Next? ==> o.session.current == t.current && o.next != Unstarted
  }

  lemma ReadLeavesCurrent(t: Session, id: nat, users: seq<Account>, r: RecvResult, env: Env)
    ensures LeavesCurrent(t, OnRead(t, id, users, r, env))
  {
  }

  lemma ReadJoins(s: Session, id: nat, users: seq<Account>, r: RecvResult, env: Env, calls: seq<Stm.Callback>)
    requires !ReadAborts(s)
    ensures var o := StmRead(s, id, users, r, env);
            o.Next? ==> Index(o.next) <= LAST_STATE &&
                        var m := Stm.Handled(MachineOf(s, calls), Index(o.next)); m == MachineOf(o.session, m.calls)
  {
    var t := HandleFirst(s);
    var o := OnRead(t, id, users, r, env);
    ReadLeavesCurrent(t, id, users, r, env);
    if o.Next? {
      var started := Stm.Started(MachineOf(s, calls));
      HandleFirstJoins(s, calls);
      assert MachineOf(o.session, started.calls) == MachineOf(t, started.calls);
      JumpJoins(o.session, o.next, started.calls);
    }
  }

  lemma WriteJoins(s: Session, users: seq<Account>, r: SendResult, calls: seq<Stm.Callback>)
    requires !WriteAborts(s) && (r.Sent? ==> r.n <= |s.output.contents|)
    ensures var o := StmWrite(s, users, r);
            o.Next? && Index(o.next) <= LAST_STATE &&
            var m := Stm.Handled(MachineOf(s, calls), Index(o.next)); m == MachineOf(o.session, m.calls)
  {
  }

  // ---------------------------------------------------------------------------
  // Whole runs

  /** What the handlers of session `id` answer during a run. */
  function Answers(w: World, run: seq<Event>, id: nat): (r: seq<nat>)
    requires ValidRun(w, run)
    ensures forall k :: 0 <= k < |r| ==> r[k] <= LAST_STATE
    decreases |run|
  {
    if run == [] then []
    else
      var first := Step(w, run[0]);
      StepAnswer(w, run[0], id) + if first.Running? then Answers(first.world, run[1..], id) else []
  }

  function StepAnswer(w: World, e: Event, id: nat): (r: seq<nat>)
    requires Enabled(w, e)
    ensures forall k :: 0 <= k < |r| ==> r[k] <= LAST_STATE
  {
    if e.Readable? && e.id == id && !ReadAborts(w.sessions[id]) then
      Answered(StmRead(w.sessions[id], id, w.users, e.recv, e.env))
    else if e.Writable? && e.id == id && !WriteAborts(w.sessions[id]) then
      Answered(StmWrite(w.sessions[id], w.users, e.send))
    else []
  }

  function Answered(o: Outcome): (r: seq<nat>)
    ensures forall k :: 0 <= k < |r| ==> r[k] <= LAST_STATE
  {
    if o.Next? then [Index(o.next)] else []
  }

  /** The engine `m` belongs to session `id`: it is in the session's state, or in
      the final state in which the session ended. */
  predicate Follows(m: Stm.Machine, w: World, id: nat) {
    && m.initial == Index(AuthRead) && m.maxState == LAST_STATE && id < w.accepted
    && (if id in w.sessions then m.current == CurrentOf(w.sessions[id].current)
        else m.current == CurrentOf(Finished) || m.current == CurrentOf(Errored))
  }

  lemma ReadFollows(m: Stm.Machine, w: World, id: nat, o: Outcome, r: RecvResult, env: Env)
    requires id in w.sessions && Follows(m, w, id) && !ReadAborts(w.sessions[id])
    requires o == StmRead(w.sessions[id], id, w.users, r, env) && o.Next?
    ensures Follows(Stm.HandleAll(m, Answered(o)), Settle(w, id, o).world, id)
  {
    assert m == MachineOf(w.sessions[id], m.calls);
    ReadJoins(w.sessions[id], id, w.users, r, env, m.calls);
    OneAnswer(m, o);
    SettleFollows(Stm.Handled(m, Index(o.next)), w, id, o);
  }

  lemma WriteFollows(m: Stm.Machine, w: World, id: nat, o: Outcome, r: SendResult)
    requires id in w.sessions && Follows(m, w, id) && !WriteAborts(w.sessions[id])
    requires (r.Sent? ==> r.n <= |w.sessions[id].output.contents|) && o == StmWrite(w.sessions[id], w.users, r)
    ensures o.Next? && Follows(Stm.HandleAll(m, Answered(o)), Settle(w, id, o).world, id)
  {
    assert m == MachineOf(w.sessions[id], m.calls);
    WriteJoins(w.sessions[id], w.users, r, m.calls);
    OneAnswer(m, o);
    SettleFollows(Stm.Handled(m, Index(o.next)), w, id, o);
  }

  lemma StepFollows(m: Stm.Machine, w: World, e: Event, id: nat)
    requires WorldInv(w) && Enabled(w, e) && Step(w, e).Running? && Follows(m, w, id)
    ensures Follows(Stm.HandleAll(m, StepAnswer(w, e, id)), Step(w, e).world, id)
  {
    match e
    case Accept =>
    case Readable(i, r, env) =>
      ReadKeepsInv(w.sessions[i], i, w.users, r, env);
      if i == id {
        ReadFollows(m, w, id, StmRead(w.sessions[id], id, w.users, r, env), r, env);
      }
    case Writable(i, r) =>
      WriteKeepsInv(w.sessions[i], w.users, r);
      if i == id {
        WriteFollows(m, w, id, StmWrite(w.sessions[id], w.users, r), r);
      }
  }

  lemma SettleFollows(m: Stm.Machine, w: World, id: nat, o: Outcome)
    requires o.Next? && id < w.accepted && m == MachineOf(o.session, m.calls) && o.session.current == o.next
    ensures Settle(w, id, o).Running? && Follows(m, Settle(w, id, o).world, id)
  {
  }

  lemma OneAnswer(m: Stm.Machine, o: Outcome)
    requires o.Next? && m.maxState == LAST_STATE
    ensures Stm.HandleAll(m, Answered(o)) == Stm.Handled(m, Index(o.next))
  {
    assert Answered(o)[1..] == [];
  }

  lemma StepAlternates(m: Stm.Machine, w: World, e: Event, id: nat)
    requires WorldInv(w) && Enabled(w, e) && Step(w, e).Running?
    requires Follows(m, w, id) && Stm.Alternates(m) && m.Valid()
    ensures var m' := Stm.HandleAll(m, StepAnswer(w, e, id));
            Follows(m', Step(w, e).world, id) && Stm.Alternates(m') && m'.Valid() && WorldInv(Step(w, e).world)
  {
    StepKeepsInv(w, e);
    StepFollows(m, w, e, id);
    Stm.RunAlternates(m, StepAnswer(w, e, id));
  }

  lemma AnswersOfRun(w: World, run: seq<Event>, id: nat)
    requires ValidRun(w, run) && run != [] && Exec(w, run).Running?
    ensures var first := Step(w, run[0]);
            && first.Running? && Exec(first.world, run[1..]).Running?
            && Exec(w, run).world == Exec(first.world, run[1..]).world
            && Answers(w, run, id) == StepAnswer(w, run[0], id) + Answers(first.world, run[1..], id)
  {
  }

  /** In every run of the server the engine of every session, fed with what its
      handlers answer, is in the session's state; so the arrivals and departures of
      the session alternate strictly, from the first event to the last. */
  lemma {:induction false} CallbacksAlternate(m: Stm.Machine, w: World, run: seq<Event>, id: nat)
    requires WorldInv(w) && ValidRun(w, run) && Exec(w, run).Running?
    requires Follows(m, w, id) && Stm.Alternates(m) && m.Valid()
    ensures var m' := Stm.HandleAll(m, Answers(w, run, id));
            Follows(m', Exec(w, run).world, id) && Stm.Alternates(m') && m'.Valid()
    decreases |run|
  {
    if run != [] {
      var w', now := Step(w, run[0]).world, StepAnswer(w, run[0], id);
      AnswersOfRun(w, run, id);
      StepAlternates(m, w, run[0], id);
      CallbacksAlternate(Stm.HandleAll(m, now), w', run[1..], id);
      Stm.HandleInTurn(m, now, Answers(w', run[1..], id));
    }
  }
}
