/** What every run of the admin server keeps: state and selector interest agree,
    the state machine never aborts, commands run only after a login. */
module PrawtosSafety {
  import opened Bytes
  import opened Io
  import opened LinearBuffer
  import opened Feeding
  import opened Accounts
  import opened PrawtosSession
  import Auth = AuthParser
  import Cmd = PrawtosParser

  predicate IsWriting(st: State) {
    st == AuthWrite || st == CmdWrite
  }

  predicate IsLive(st: State) {
    st != Finished && st != Errored
  }

  /** Read states wait for OP_READ, write states for OP_WRITE. */
  predicate Lockstep(s: Session) {
    IsLive(s.current) && s.interest == if IsWriting(s.current) then WRITE_ONLY else READ_ONLY
  }

  /** A reply is pending exactly in the write states, parsers in read states are
      unfinished and in a state that bytes can lead to, buffers are sound, and the
      read buffer is empty until the login is complete. A refusal and the answer to
      a QUIT are still whole. */
  predicate SessionInv(s: Session) {
    && Lockstep(s)
    && s.input.Valid() && s.output.Valid() && s.input.capacity == s.output.capacity == BUFFER_SIZE
    && (s.output.contents != [] <==> IsWriting(s.current))
    && (s.current == Unstarted || s.current == AuthRead ==> s.input == Empty(BUFFER_SIZE))
    && (s.current == AuthRead ==> !Auth.Done(s.auth) && !Auth.Overran(s.auth))
    && (s.current == CmdRead ==> !Cmd.Done(s.cmd) && !Cmd.Overran(s.cmd) && Cmd.WellFormed(s.cmd))
    && (s.current == CmdWrite ==> s.status == SUCCESS || s.status == USER_CREDENTIA)
    && (s.current == CmdWrite && s.cmd.kind == Cmd.QUIT ==> s.output.contents == [SUCCESS])
    && (s.current == CmdWrite ==> s.cmd.kind == Cmd.GET || s.cmd.kind == Cmd.USER || s.cmd.kind == Cmd.QUIT)
    && (s.current == AuthWrite && s.authStatus != AUTH_SUCCESS ==> s.output.contents == [1, AUTH_BAD_CREDENTIALS])
  }

  predicate WorldInv(w: World) {
    && (forall id :: id in w.sessions ==> id < w.accepted && SessionInv(w.sessions[id]))
    && Accounts.Valid(w.users)
  }

  /** What a handler must leave behind for the session to go on. */
  predicate OutcomeInv(o: Outcome) {
    o.Next? && IsLive(o.next) ==> SessionInv(o.session) && o.session.current == o.next
  }

  lemma AuthDoneKeepsInv(t: Session, id: nat, users: seq<Account>)
    requires t.current == AuthRead && t.output == Empty(BUFFER_SIZE)
    requires t.input.Valid() && t.input.capacity == BUFFER_SIZE
    ensures OutcomeInv(Jumped(AuthDone(t, id, users)))
  {
  }

  /** What an unfinished login leaves: only the parser has moved. */
  lemma AuthFedKeepsInv(s: Session, bytes: seq<byte>)
    requires s.current == AuthRead && SessionInv(s) && |bytes| <= s.input.Room()
    ensures var t := AuthFed(s, bytes);
            && t == s.(auth := t.auth, input := t.input) && t.input.Valid() && t.input.capacity == BUFFER_SIZE
            && (!Auth.Done(t.auth) ==> t.input == Empty(BUFFER_SIZE))
  {
  }

  lemma AuthReadKeepsInv(s: Session, id: nat, users: seq<Account>, r: RecvResult)
    requires s.current == AuthRead && SessionInv(s) && (r.Got? ==> |r.bytes| <= s.input.Room())
    ensures OutcomeInv(Jumped(OnAuthRead(s, id, users, r)))
  {
    if r.Got? && r.bytes != [] {
      var t := AuthFed(s, r.bytes);
      AuthFedKeepsInv(s, r.bytes);
      if Auth.Done(t.auth) {
        AuthDoneKeepsInv(t, id, users);
      }
    }
  }

  /** Both write handlers: the rest of the reply stays pending, or the session
      turns to a fresh command. */
  lemma RepliedKeepsInv(s: Session, n: nat)
    requires SessionInv(s) && IsWriting(s.current) && n <= |s.output.contents|
    requires if s.current == AuthWrite then s.authStatus == AUTH_SUCCESS else s.cmd.kind != Cmd.QUIT
    ensures var (next, t) := Replied(s, n, s.current); SessionInv(Jump(t, next)) && Jump(t, next).current == next
  {
  }

  lemma AuthWriteKeepsInv(s: Session, users: seq<Account>, r: SendResult)
    requires s.current == AuthWrite && SessionInv(s) && (r.Sent? ==> r.n <= |s.output.contents|)
    ensures OutcomeInv(Jumped(OnAuthWrite(s, users, r)))
  {
    if s.authStatus == AUTH_SUCCESS && r.Sent? && r.n > 0 {
      RepliedKeepsInv(s, r.n);
    }
  }

  /** cmd_process only queues a reply, and only answers CMD_WRITE with one. */
  lemma CmdProcessKeeps(s: Session, id: nat, users: seq<Account>, env: Env)
    requires s.output.Valid() && s.output.contents == [] && Lists(env, users)
    ensures var o := CmdProcess(s, id, users, env);
            o.Next? ==>
              && (o.next == CmdWrite || o.next == Errored)
              && o.session == s.(status := o.session.status, output := o.session.output)
              && o.session.output.Valid() && o.session.output.capacity == s.output.capacity
              && (o.next == CmdWrite ==> o.session.output.contents != []
                                         && (o.session.status == SUCCESS || o.session.status == USER_CREDENTIA))
              && (o.next == CmdWrite && s.cmd.kind == Cmd.QUIT ==> o.session.output.contents == [SUCCESS])
              && (o.next == CmdWrite ==> s.cmd.kind == Cmd.GET || s.cmd.kind == Cmd.USER || s.cmd.kind == Cmd.QUIT)
              && |o.log| == 1 && o.log[0].Executed? && o.log[0].id == id
  {
  }

  lemma CmdDoneKeepsInv(t: Session, id: nat, users: seq<Account>, env: Env)
    requires SessionInv(t.(cmd := Cmd.Initialised(t.cmd))) && t.current == CmdRead && Lists(env, users)
    ensures OutcomeInv(Jumped(CmdDone(t, id, users, env)))
  {
    CmdProcessKeeps(t.(interest := WRITE_ONLY), id, users, env);
  }

  lemma ConsumeKeepsWellFormed(p: Cmd.Prawtos, input: seq<byte>)
    requires Cmd.WellFormed(p) && !Cmd.Done(p)
    ensures Cmd.WellFormed(Consume(Cmd.Feed, Cmd.Done, p, input).0)
  {
    forall q: Cmd.Prawtos, t: seq<byte>, c: byte | Cmd.Explains(q, t) && !Cmd.Done(q) {
      Cmd.FeedExplains(q, t, c);
    }
    ConsumeKeeps(Cmd.Feed, Cmd.Done, Cmd.Explains, p, Cmd.Echo(p), input);
  }

  lemma CmdReadKeepsInv(s: Session, id: nat, users: seq<Account>, r: RecvResult, env: Env)
    requires s.current == CmdRead && SessionInv(s) && (r.Got? ==> |r.bytes| <= s.input.Room()) && Lists(env, users)
    ensures OutcomeInv(Jumped(OnCmdRead(s, id, users, r, env)))
  {
    if r.Got? && r.bytes != [] {
      ConsumeKeepsWellFormed(s.cmd, s.input.contents + r.bytes);
      CmdDoneKeepsInv(CmdFed(s, r.bytes), id, users, env);
    }
  }

  lemma CmdWriteKeepsInv(s: Session, users: seq<Account>, r: SendResult)
    requires s.current == CmdWrite && SessionInv(s) && (r.Sent? ==> r.n <= |s.output.contents|)
    ensures OutcomeInv(Jumped(OnCmdWrite(s, users, r)))
  {
    if s.cmd.kind != Cmd.QUIT && r.Sent? && r.n > 0 {
      RepliedKeepsInv(s, r.n);
    }
  }

  lemma ReadKeepsInv(s: Session, id: nat, users: seq<Account>, r: RecvResult, env: Env)
    requires SessionInv(s) && s.interest.read && (r.Got? ==> |r.bytes| <= s.input.Room()) && Lists(env, users)
    ensures !ReadAborts(s) && OutcomeInv(StmRead(s, id, users, r, env))
  {
    var t := HandleFirst(s);
    if t.current == AuthRead {
      AuthReadKeepsInv(t, id, users, r);
    } else {
      CmdReadKeepsInv(t, id, users, r, env);
    }
  }

  lemma WriteKeepsInv(s: Session, users: seq<Account>, r: SendResult)
    requires SessionInv(s) && s.interest.write && (r.Sent? ==> r.n <= |s.output.contents|)
    ensures !WriteAborts(s) && OutcomeInv(StmWrite(s, users, r))
  {
    if s.current == AuthWrite {
      AuthWriteKeepsInv(s, users, r);
    } else {
      CmdWriteKeepsInv(s, users, r);
    }
  }

  /** The strings of a command end inside the lengths received with them. */
  lemma StringsFit(p: Cmd.Prawtos)
    requires Cmd.WellFormed(p) && Cmd.Done(p)
    ensures |CStr(p.uname)| <= p.ulen && |CStr(p.passwd)| <= p.plen
  {
    StringWithin(p.uname, p.ulen);
    StringWithin(p.passwd, p.plen);
  }

  lemma StringWithin(block: Field, n: nat)
    requires Cmd.ZeroFrom(block, n)
    ensures |CStr(block)| <= n
  {
    if n < FIELD_SIZE {
      CStrBefore(block, n);
    }
  }

  lemma HandleUserKeepsValid(p: Cmd.Prawtos, users: seq<Account>)
    requires Accounts.Valid(users) && Cmd.WellFormed(p) && Cmd.Done(p)
    ensures var h := HandleUser(p, users); h.Handled? ==> Accounts.Valid(h.users)
  {
    var name, secret := CStr(p.uname), CStr(p.passwd);
    StringsFit(p);
    AddKeepsValid(users, Account(name, p.ulen, secret, p.plen, p.admin != 0));
    DeleteKeepsValid(users, name);
    EditKeepsValid(users, name, secret, p.plen);
  }

  /** The command that the bytes received complete. */
  function CommandReceived(s: Session, r: RecvResult): Cmd.Prawtos {
    if r.Got? then CmdFed(s, r.bytes).cmd else s.cmd
  }

  predicate HandledBy(o: Outcome, id: nat, users: seq<Account>, p: Cmd.Prawtos)
    requires o.Next?
  {
    var h := HandleUser(p, users);
    h.Handled? && o.users == h.users && o.log == [Executed(id, h.change)]
  }

  predicate Checks(o: Outcome, id: nat)
    requires o.Next?
  {
    o.log == [Checked(id, true)] || o.log == [Checked(id, false)]
  }

  /** The registry changes only as the entry of user_handlers for the command
      received changes it, and the log tells how. */
  predicate EffectOf(o: Outcome, s: Session, id: nat, users: seq<Account>, r: RecvResult) {
    o.Next? ==>
      || (o.users == users && (o.log == [] || Checks(o, id) || o.log == [Executed(id, NoChange)]))
      || (var p := CommandReceived(s, r);
          s.current == CmdRead && Cmd.Done(p) && !Cmd.Overran(p) && p.kind == Cmd.USER && HandledBy(o, id, users, p))
  }

  lemma CmdDoneEffect(t: Session, id: nat, users: seq<Account>, env: Env)
    ensures var o := Jumped(CmdDone(t, id, users, env));
            o.Next? ==> (o.users == users && o.log == [Executed(id, NoChange)])
                        || (t.cmd.kind == Cmd.USER && HandledBy(o, id, users, t.cmd))
  {
  }

  lemma AuthReadEffect(s: Session, id: nat, users: seq<Account>, r: RecvResult)
    ensures var o := Jumped(OnAuthRead(s, id, users, r)); o.Next? ==> o.users == users && (o.log == [] || Checks(o, id))
  {
  }

  lemma ReadEffect(s: Session, id: nat, users: seq<Account>, r: RecvResult, env: Env)
    requires !ReadAborts(s)
    ensures EffectOf(StmRead(s, id, users, r, env), s, id, users, r)
  {
    if s.current != CmdRead {
      AuthReadEffect(HandleFirst(s), id, users, r);
    } else if r.Got? && r.bytes != [] {
      CmdDoneEffect(CmdFed(s, r.bytes), id, users, env);
    }
  }

  lemma EffectKeepsValid(o: Outcome, s: Session, id: nat, users: seq<Account>, r: RecvResult)
    requires Accounts.Valid(users) && SessionInv(s) && EffectOf(o, s, id, users, r)
    ensures o.Next? ==> Accounts.Valid(o.users)
  {
    if o.Next? && o.users != users {
      var p := CommandReceived(s, r);
      if r.Got? {
        ConsumeKeepsWellFormed(s.cmd, s.input.contents + r.bytes);
      }
      HandleUserKeepsValid(p, users);
    }
  }

  lemma SettleKeepsInv(w: World, id: nat, o: Outcome)
    requires WorldInv(w) && id in w.sessions && OutcomeInv(o) && (o.Next? ==> Accounts.Valid(o.users))
    ensures Settle(w, id, o).Running? ==> WorldInv(Settle(w, id, o).world)
  {
  }

  lemma AcceptKeepsInv(w: World)
    requires WorldInv(w)
    ensures Step(w, Accept).Running? && WorldInv(Step(w, Accept).world)
  {
  }

  lemma ReadStepKeepsInv(w: World, id: nat, r: RecvResult, env: Env)
    requires WorldInv(w) && Enabled(w, Readable(id, r, env))
    ensures var next := Step(w, Readable(id, r, env)); !next.Aborted? && (next.Running? ==> WorldInv(next.world))
  {
    var s := w.sessions[id];
    ReadKeepsInv(s, id, w.users, r, env);
    ReadEffect(s, id, w.users, r, env);
    var o := StmRead(s, id, w.users, r, env);
    EffectKeepsValid(o, s, id, w.users, r);
    SettleKeepsInv(w, id, o);
  }

  lemma WriteStepKeepsInv(w: World, id: nat, r: SendResult)
    requires WorldInv(w) && Enabled(w, Writable(id, r))
    ensures var next := Step(w, Writable(id, r)); !next.Aborted? && (next.Running? ==> WorldInv(next.world))
  {
    WriteKeepsInv(w.sessions[id], w.users, r);
    WriteKeepsUsers(w.sessions[id], w.users, r);
    SettleKeepsInv(w, id, StmWrite(w.sessions[id], w.users, r));
  }

  lemma WriteKeepsUsers(s: Session, users: seq<Account>, r: SendResult)
    requires !WriteAborts(s) && (r.Sent? ==> r.n <= |s.output.contents|)
    ensures StmWrite(s, users, r).Next? && StmWrite(s, users, r).users == users && StmWrite(s, users, r).log == []
  {
  }

  /** No step aborts, and every step keeps the invariant of all sessions. */
  lemma StepKeepsInv(w: World, e: Event)
    requires WorldInv(w) && Enabled(w, e)
    ensures !Step(w, e).Aborted?
    ensures Step(w, e).Running? ==> WorldInv(Step(w, e).world)
  {
    match e
    case Accept => AcceptKeepsInv(w);
    case Readable(id, r, env) => ReadStepKeepsInv(w, id, r, env);
    case Writable(id, r) => WriteStepKeepsInv(w, id, r);
  }

  /** The server after start-up, with whatever users it was started with. */
  function Boot(users: seq<Account>): World {
    World(map[], users, 0)
  }

  /** An invariant of worlds and logs that every step keeps holds after every run. */
  lemma {:induction false} RunInvariant(inv: (World, seq<Action>) -> bool, w: World, log: seq<Action>, run: seq<Event>)
    requires inv(w, log) && ValidRun(w, run)
    requires forall v: World, l: seq<Action>, e: Event ::
               inv(v, l) && Enabled(v, e) && Step(v, e).Running? ==> inv(Step(v, e).world, l + Step(v, e).log)
    ensures Exec(w, run).Running? ==> inv(Exec(w, run).world, log + Exec(w, run).log)
    decreases |run|
  {
    if run == [] {
      assert log + [] == log;
    } else {
      var first := Step(w, run[0]);
      if first.Running? {
        RunInvariant(inv, first.world, log + first.log, run[1..]);
        var rest := Exec(first.world, run[1..]);
        if rest.Running? {
          assert (log + first.log) + rest.log == log + (first.log + rest.log);
        }
      }
    }
  }

  /** In every run: abort() is never reached, each session's state and interest
      are in lockstep, and a reply is pending exactly in the write states. */
  lemma {:induction false} RunKeepsInv(w: World, run: seq<Event>)
    requires WorldInv(w) && ValidRun(w, run)
    ensures !Exec(w, run).Aborted?
    ensures Exec(w, run).Running? ==> WorldInv(Exec(w, run).world)
    decreases |run|
  {
    if run != [] {
      StepKeepsInv(w, run[0]);
      if Step(w, run[0]).Running? {
        RunKeepsInv(Step(w, run[0]).world, run[1..]);
      }
    }
  }

  // ---------------------------------------------------------------------------
  // Commands need a login

  predicate LoggedIn(log: seq<Action>, id: nat) {
    Checked(id, true) in log
  }

  /** Every cmd_process comes after a successful check_credentials of its session. */
  predicate Authorised(log: seq<Action>) {
    forall k :: 0 <= k < |log| && log[k].Executed? ==> LoggedIn(log[..k], log[k].id)
  }

  predicate InCommandPhase(s: Session) {
    s.current == CmdRead || s.current == CmdWrite || (s.current == AuthWrite && s.authStatus == AUTH_SUCCESS)
  }

  predicate Trusted(w: World, log: seq<Action>) {
    forall id :: id in w.sessions && InCommandPhase(w.sessions[id]) ==> LoggedIn(log, id)
  }

  /** One handler: commands run only in the command phase, and a session enters
      that phase only with a successful check. */
  ghost predicate KeepsTrust(s: Session, o: Outcome, id: nat) {
    o.Next? ==>
      && (IsLive(o.next) && InCommandPhase(o.session) ==> InCommandPhase(s) || LoggedIn(o.log, id))
      && |o.log| <= 1 && (forall a :: a in o.log ==> a.id == id && (a.Executed? ==> InCommandPhase(s)))
  }

  lemma AuthReadKeepsTrust(s: Session, id: nat, users: seq<Account>, r: RecvResult)
    requires s.current == AuthRead
    ensures KeepsTrust(s, Jumped(OnAuthRead(s, id, users, r)), id)
  {
  }

  lemma ReadKeepsTrust(s: Session, id: nat, users: seq<Account>, r: RecvResult, env: Env)
    requires !ReadAborts(s)
    ensures KeepsTrust(s, StmRead(s, id, users, r, env), id)
  {
    var t := HandleFirst(s);
    if t.current == AuthRead {
      AuthReadKeepsTrust(t, id, users, r);
    } else {
      ReadEffect(s, id, users, r, env);
    }
  }

  lemma WriteKeepsTrust(s: Session, id: nat, users: seq<Account>, r: SendResult)
    requires !WriteAborts(s) && (r.Sent? ==> r.n <= |s.output.contents|)
    ensures KeepsTrust(s, StmWrite(s, users, r), id)
    ensures StmWrite(s, users, r).Next? && StmWrite(s, users, r).users == users && StmWrite(s, users, r).log == []
  {
  }

  lemma SettleKeepsTrust(w: World, log: seq<Action>, id: nat, o: Outcome)
    requires Trusted(w, log) && Authorised(log) && id in w.sessions && KeepsTrust(w.sessions[id], o, id)
    ensures var r := Settle(w, id, o);
            r.Running? ==> Trusted(r.world, log + r.log) && Authorised(log + r.log)
  {
    if o.Next? {
      var all := log + o.log;
      assert all[..|log|] == log;
      forall k | 0 <= k < |all| && all[k].Executed? ensures LoggedIn(all[..k], all[k].id) {
        if k < |log| {
          assert all[..k] == log[..k];
        }
      }
    }
  }

  lemma StepKeepsTrust(w: World, log: seq<Action>, e: Event)
    requires Trusted(w, log) && Authorised(log) && Enabled(w, e)
    ensures var r := Step(w, e);
            r.Running? ==> Trusted(r.world, log + r.log) && Authorised(log + r.log)
  {
    match e
    case Accept => assert log + [] == log;
    case Readable(id, r, env) =>
      if !ReadAborts(w.sessions[id]) {
        ReadKeepsTrust(w.sessions[id], id, w.users, r, env);
        SettleKeepsTrust(w, log, id, StmRead(w.sessions[id], id, w.users, r, env));
      }
    case Writable(id, r) =>
      if !WriteAborts(w.sessions[id]) {
        WriteKeepsTrust(w.sessions[id], id, w.users, r);
        SettleKeepsTrust(w, log, id, StmWrite(w.sessions[id], w.users, r));
      }
  }

  lemma RunKeepsTrust(users: seq<Account>, run: seq<Event>)
    requires ValidRun(Boot(users), run) && Exec(Boot(users), run).Running?
    ensures var r := Exec(Boot(users), run); Authorised(r.log) && Trusted(r.world, r.log)
  {
    var inv := (w: World, log: seq<Action>) => Trusted(w, log) && Authorised(log);
    forall w: World, log: seq<Action>, e: Event | inv(w, log) && Enabled(w, e) && Step(w, e).Running?
      ensures inv(Step(w, e).world, log + Step(w, e).log)
    {
      StepKeepsTrust(w, log, e);
    }
    assert Trusted(Boot(users), []) && Authorised([]);
    RunInvariant(inv, Boot(users), [], run);
    assert [] + Exec(Boot(users), run).log == Exec(Boot(users), run).log;
  }

  /** The event makes cmd_read call cmd_process, defined or not. */
  predicate CallsProcess(w: World, e: Event)
    requires Enabled(w, e)
  {
    e.Readable? && e.recv.Got? && e.recv.bytes != [] &&
    var s := w.sessions[e.id];
    s.current == CmdRead && Cmd.Done(CmdFed(s, e.recv.bytes).cmd)
  }

  /** In every run of the server, whatever the chunking and the failing or
      partial sends, a command is executed only after a successful login of the
      same session; and so is the next one, even if its execution is undefined. */
  lemma CommandsNeedLogin(users: seq<Account>, run: seq<Event>, e: Event)
    requires ValidRun(Boot(users), run) && Exec(Boot(users), run).Running?
    ensures Authorised(Exec(Boot(users), run).log)
    ensures var r := Exec(Boot(users), run);
            Enabled(r.world, e) && CallsProcess(r.world, e) ==> LoggedIn(r.log, e.id)
  {
    RunKeepsTrust(users, run);
  }

  /** Only a write handler answers CMD_READ from another state. */
  predicate StartsFresh(s: Session, o: Outcome) {
    o.Next? && o.next == CmdRead && s.current != CmdRead ==>
      Cmd.Fresh(o.session.cmd) && o.session.output == Empty(BUFFER_SIZE) && InCommandPhase(s)
  }

  lemma WriteStartsFresh(s: Session, users: seq<Account>, r: SendResult)
    requires SessionInv(s) && !WriteAborts(s) && (r.Sent? ==> r.n <= |s.output.contents|)
    ensures StartsFresh(s, StmWrite(s, users, r))
  {
  }

  lemma ReadStartsNothing(s: Session, id: nat, users: seq<Account>, r: RecvResult, env: Env)
    requires SessionInv(s) && !ReadAborts(s) && s.current != CmdRead
    ensures var o := StmRead(s, id, users, r, env); o.Next? ==> o.next != CmdRead
  {
  }

  /** A session enters CMD_READ only with a freshly initialised parser and the
      previous reply completely sent. */
  lemma CommandsStartFresh(w: World, e: Event, id: nat)
    requires WorldInv(w) && Enabled(w, e) && Step(w, e).Running? && id in w.sessions && id in Step(w, e).world.sessions
    requires w.sessions[id].current != CmdRead && Step(w, e).world.sessions[id].current == CmdRead
    ensures var s := Step(w, e).world.sessions[id];
            Cmd.Fresh(s.cmd) && s.output == Empty(BUFFER_SIZE) && InCommandPhase(w.sessions[id])
  {
    match e
    case Accept =>
    case Readable(i, r, env) =>
      ReadKeepsInv(w.sessions[i], i, w.users, r, env);
      if i == id {
        ReadStartsNothing(w.sessions[i], i, w.users, r, env);
      }
    case Writable(i, r) =>
      WriteKeepsInv(w.sessions[i], w.users, r);
      WriteStartsFresh(w.sessions[i], w.users, r);
  }
}
