/** What each command does and answers, stated from the bytes on the wire and the
    registry as a map, whatever the chunking and the bytes around the command. */
module PrawtosEffects {
  import opened Bytes
  import opened Io
  import opened LinearBuffer
  import opened Feeding
  import opened Accounts
  import opened ClientMessages
  import opened PrawtosSession
  import opened PrawtosSafety
  import opened PrawtosLogin
  import opened PrawtosFaults
  import Cmd = PrawtosParser

  /** The command arrives in pieces: what runs is cmd_process for it. */
  lemma {:induction false} MessageArrives(w: World, id: nat, chunks: seq<seq<byte>>, env: Env, m: Cmd.Message,
                                          rest: seq<byte>) returns (t: Session)
    requires WorldInv(w) && AwaitsCommand(w, id, env) && Sends(w.sessions[id], chunks, m, rest)
    ensures ValidRun(w, Deliver(id, chunks, env))
    ensures Exec(w, Deliver(id, chunks, env)) == Settle(w, id, Jumped(CmdDone(t, id, w.users, env)))
    ensures t.cmd.state == Cmd.Finished && Cmd.WellFormed(t.cmd) && Cmd.Decode(t.cmd) == m
    ensures t.output == Empty(BUFFER_SIZE) && t.input.contents == rest && t.current == CmdRead
  {
    var p := MessageCompletes(w.sessions[id], chunks, m, rest);
    t := Completed(w.sessions[id], chunks, p, rest);
    CommandArrives(w, id, chunks, env, p, rest, t);
  }

  // ---------------------------------------------------------------------------
  // USER

  lemma FieldText(block: Field, n: nat, text: seq<byte>)
    requires n < FIELD_SIZE && block[..n] == text && Cmd.ZeroFrom(block, n)
    ensures CStr(block) == CStr(text)
  {
    var tail := block[n..];
    assert block == text + tail && tail[0] == 0;
    CStrOfText(text, tail);
  }

  /** The parser's fields hold what the message says. */
  lemma FieldsOf(p: Cmd.Prawtos, m: Cmd.Message)
    requires p.state == Cmd.Finished && Cmd.WellFormed(p) && Cmd.Decode(p) == m && m.User? && !HasLongField(m)
    ensures p.kind == Cmd.USER && p.userCmd == m.cmd && p.admin == m.admin
    ensures p.ulen == |m.name| && p.plen == |m.passwd| && p.passwd[..p.plen] == m.passwd
    ensures CStr(p.uname) == CStr(m.name) && CStr(p.passwd) == CStr(m.passwd)
  {
    assert |p.uname[..p.ulen]| == p.ulen && |p.passwd[..p.plen]| == p.plen;
    assert p.passwd[..p.plen] == m.passwd;
    FieldText(p.uname, p.ulen, m.name);
    FieldText(p.passwd, p.plen, m.passwd);
  }

  /** What a USER command must do: the registry it leaves, as a map, and the status
      byte; from the fields of the message alone. */
  datatype Effect = Effect(after: Registry, reply: byte)

  function UserEffect(m: Cmd.Message, before: Registry): Effect
    requires m.User?
  {
    var name, secret := CStr(m.name), CStr(m.passwd);
    if m.cmd == 0 && name !in before then Effect(before[name := Credential(secret, m.admin == 1)], 0)
    else if m.cmd == 1 && name in before then Effect(before - {name}, 0)
    else if m.cmd == 2 && name in before then Effect(before[name := Credential(secret, before[name].admin)], 0)
    else Effect(before, 5)
  }

  /** The search runs past a stored block, or a password without NUL is to replace
      another. */
  predicate UserUndefined(m: Cmd.Message, users: seq<Account>)
    requires m.User?
  {
    !ScanDefined(users, CStr(m.name)) || (m.cmd == 2 && CStr(m.name) in ToMap(users) && 0 !in m.passwd)
  }

  /** The list that the message leaves: a create appends, with the two blocks as
      received; a delete and an edit leave everyone else where they were. */
  predicate ListAfter(m: Cmd.Message, users: seq<Account>, after: seq<Account>)
    requires m.User?
  {
    var name, secret := CStr(m.name), CStr(m.passwd);
    if m.cmd == 0 && name !in ToMap(users) then
      after == users + [Account(name, |m.name|, secret, |m.passwd|, m.admin == 1)]
    else if m.cmd == 1 then Names(after) == Dropped(Names(users), name)
    else if m.cmd == 2 then
      Names(after) == Names(users) && forall i :: 0 <= i < |users| && users[i].key != name ==> after[i] == users[i]
    else after == users
  }

  lemma HandleUserIs(p: Cmd.Prawtos, m: Cmd.Message, users: seq<Account>)
    requires Accounts.Valid(users) && m.Valid() && m.User? && !HasLongField(m)
    requires p.state == Cmd.Finished && Cmd.WellFormed(p) && Cmd.Decode(p) == m
    ensures var h := HandleUser(p, users);
            if UserUndefined(m, users) then h.Overrun?
            else h.Handled? && ToMap(h.users) == UserEffect(m, ToMap(users)).after && ListAfter(m, users, h.users)
                 && (h.change.NoChange? <==> UserEffect(m, ToMap(users)).reply == 5)
                 && (UserEffect(m, ToMap(users)).reply == 5 ==> h.users == users)
  {
    var name, secret := CStr(m.name), CStr(m.passwd);
    FieldsOf(p, m);
    StringsFit(p);
    CStrShorter(m.passwd);
    PresentInMap(users, name);
    if !UserUndefined(m, users) {
      if m.cmd == 0 {
        AddRefines(users, Account(name, |m.name|, secret, |m.passwd|, m.admin == 1));
      } else if m.cmd == 1 {
        DeleteRefines(users, name);
        DeleteOrder(users, name);
        if !Present(users, name) {
          NotNamed(users, name);
        }
      } else if Present(users, name) {
        EditRefines(users, name, secret, |m.passwd|);
        EditOthers(users, name, secret, |m.passwd|);
      }
    }
  }

  lemma NotNamed(users: seq<Account>, key: seq<byte>)
    requires !Present(users, key)
    ensures Delete(users, key) == users
  {
  }

  lemma EditOthers(users: seq<Account>, key: seq<byte>, secret: seq<byte>, plen: nat)
    requires UniqueKeys(users)
    ensures var after := Edit(users, key, secret, plen);
            Names(after) == Names(users) && forall i :: 0 <= i < |users| && users[i].key != key ==> after[i] == users[i]
  {
  }

  /** A complete USER command answers with one byte: whether it changed something. */
  lemma UserDone(t: Session, id: nat, users: seq<Account>, env: Env)
    requires t.cmd.state == Cmd.Finished && t.cmd.kind == Cmd.USER && t.output == Empty(BUFFER_SIZE)
    ensures var o, h := CmdDone(t, id, users, env), HandleUser(t.cmd, users);
            if h.Overrun? then o.Undefined?
            else o.Next? && o.next == CmdWrite && o.users == h.users && o.session.input == t.input
                 && o.session.output.contents == [if h.change.NoChange? then 5 else 0]
  {
  }

  lemma UserSettles(w: World, id: nat, t: Session, env: Env)
    requires t.cmd.state == Cmd.Finished && t.cmd.kind == Cmd.USER && t.output == Empty(BUFFER_SIZE)
    ensures var r, h := Settle(w, id, Jumped(CmdDone(t, id, w.users, env))), HandleUser(t.cmd, w.users);
            if h.Overrun? then r.Faulted?
            else r.Running? && r.world.users == h.users
                 && id in r.world.sessions && r.world.sessions[id].current == CmdWrite
                 && r.world.sessions[id].output.contents == [if h.change.NoChange? then 5 else 0]
                 && r.world.sessions[id].input == t.input
  {
    UserDone(t, id, w.users, env);
    if HandleUser(t.cmd, w.users).Handled? {
      SettleLive(w, id, CmdDone(t, id, w.users, env));
    }
  }

  /** A USER command under any chunking, with any bytes around it: the registry
      changes exactly as the fields of the message say, and the reply says whether
      it did. It is undefined exactly for `UserUndefined`. */
  lemma UserCommandTakesEffect(w: World, id: nat, chunks: seq<seq<byte>>, env: Env, m: Cmd.Message, rest: seq<byte>)
    requires WorldInv(w) && AwaitsCommand(w, id, env) && Sends(w.sessions[id], chunks, m, rest) && m.User?
    ensures ValidRun(w, Deliver(id, chunks, env))
    ensures var r, e := Exec(w, Deliver(id, chunks, env)), UserEffect(m, ToMap(w.users));
            if UserUndefined(m, w.users) then r.Faulted?
            else r.Running? && ToMap(r.world.users) == e.after && ListAfter(m, w.users, r.world.users)
                 && (e.reply == 5 ==> r.world.users == w.users)
                 && id in r.world.sessions && r.world.sessions[id].current == CmdWrite
                 && r.world.sessions[id].output.contents == [e.reply] && r.world.sessions[id].input.contents == rest
  {
    var t := MessageArrives(w, id, chunks, env, m, rest);
    MessageSettles(w, id, t, env, m);
  }

  lemma MessageSettles(w: World, id: nat, t: Session, env: Env, m: Cmd.Message)
    requires Accounts.Valid(w.users) && m.Valid() && m.User? && !HasLongField(m) && t.output == Empty(BUFFER_SIZE)
    requires t.cmd.state == Cmd.Finished && Cmd.WellFormed(t.cmd) && Cmd.Decode(t.cmd) == m
    ensures var r, e := Settle(w, id, Jumped(CmdDone(t, id, w.users, env))), UserEffect(m, ToMap(w.users));
            if UserUndefined(m, w.users) then r.Faulted?
            else r.Running? && ToMap(r.world.users) == e.after && ListAfter(m, w.users, r.world.users)
                 && (e.reply == 5 ==> r.world.users == w.users)
                 && id in r.world.sessions && r.world.sessions[id].current == CmdWrite
                 && r.world.sessions[id].output.contents == [e.reply] && r.world.sessions[id].input == t.input
  {
    FieldsOf(t.cmd, m);
    HandleUserIs(t.cmd, m, w.users);
    UserSettles(w, id, t, env);
  }

  /** The message of modify_user. */
  function EditOf(name: seq<byte>, secret: seq<byte>): (m: Cmd.Message)
    requires Short(name) && Short(secret)
    ensures m.Valid() && !HasLongField(m)
  {
    Cmd.User(2, 0, name + [0], secret + [0])
  }

  /** The message of remove_user. */
  function DeleteOf(name: seq<byte>): (m: Cmd.Message)
    requires Short(name)
    ensures m.Valid() && !HasLongField(m)
  {
    Cmd.User(1, 0, name + [0], [])
  }

  lemma TextOf(text: seq<byte>)
    requires 0 !in text
    ensures CStr(text + [0]) == text
  {
    CStrOfTerminated(text, []);
    assert text + [0] + [] == text + [0];
  }

  /** The list after an edit is the edited list. */
  lemma EditedList(p: Cmd.Prawtos, name: seq<byte>, secret: seq<byte>, users: seq<Account>)
    requires Accounts.Valid(users) && Short(name) && Short(secret) && Present(users, name) && ScanDefined(users, name)
    requires users[IndexOf(users, name)].admin
    requires p.state == Cmd.Finished && Cmd.WellFormed(p) && Cmd.Decode(p) == EditOf(name, secret)
    ensures HandleUser(p, users).Handled? && !HandleUser(p, users).change.NoChange?
    ensures Honours(HandleUser(p, users).users, name, secret)
  {
    var m := EditOf(name, secret);
    FieldsOf(p, m);
    TextOf(name);
    TextOf(secret);
    EditedIsHonoured(users, name, secret, p.plen);
  }

  /** Once the client's edit message of an admin is executed, the login message with
      the new password is accepted, and with any other password it is not, in
      every later run until another delete or edit of that name succeeds. */
  lemma EditThenLogin(w: World, id: nat, chunks: seq<seq<byte>>, env: Env, name: seq<byte>, secret: seq<byte>,
                      rest: seq<byte>, run: seq<Event>, loginId: nat, loginChunks: seq<seq<byte>>, loginEnv: Env,
                      behind: seq<byte>)
    requires WorldInv(w) && AwaitsCommand(w, id, env) && Short(name) && Short(secret)
    requires Present(w.users, name) && ScanDefined(w.users, name) && w.users[IndexOf(w.users, name)].admin
    requires Sends(w.sessions[id], chunks, EditOf(name, secret), rest)
    requires SendsLogin(loginChunks, name, secret, behind)
    ensures ValidRun(w, Deliver(id, chunks, env))
    ensures var r := Exec(w, Deliver(id, chunks, env));
            r.Running? && id in r.world.sessions && r.world.sessions[id].output.contents == [0]
    ensures var edited := Exec(w, Deliver(id, chunks, env)).world;
            ValidRun(edited, run) && Exec(edited, run).Running? && Untouched(Exec(edited, run).log, name) ==>
              var later := Exec(edited, run).world;
              (forall other :: other != secret ==> !Accepts(later.users, name, other)) &&
              (JustAccepted(later, loginId, loginEnv) ==>
                && ValidRun(later, Deliver(loginId, loginChunks, loginEnv))
                && var r := Exec(later, Deliver(loginId, loginChunks, loginEnv));
                   r.Running? && r.log == [Checked(loginId, true)])
  {
    var t := MessageArrives(w, id, chunks, env, EditOf(name, secret), rest);
    FieldsOf(t.cmd, EditOf(name, secret));
    EditedList(t.cmd, name, secret, w.users);
    UserSettles(w, id, t, env);
    RunKeepsInv(w, Deliver(id, chunks, env));
    var edited := Exec(w, Deliver(id, chunks, env)).world;
    if ValidRun(edited, run) && Exec(edited, run).Running? && Untouched(Exec(edited, run).log, name) {
      HonouredLogsIn(edited, run, name, secret, loginId, loginChunks, loginEnv, behind);
    }
  }

  lemma HonouredLogsIn(w: World, run: seq<Event>, name: seq<byte>, secret: seq<byte>, loginId: nat,
                       loginChunks: seq<seq<byte>>, loginEnv: Env, behind: seq<byte>)
    requires WorldInv(w) && Honours(w.users, name, secret) && SendsLogin(loginChunks, name, secret, behind)
    requires ValidRun(w, run) && Exec(w, run).Running? && Untouched(Exec(w, run).log, name)
    ensures forall other :: other != secret ==> !Accepts(Exec(w, run).world.users, name, other)
    ensures var later := Exec(w, run).world;
            JustAccepted(later, loginId, loginEnv) ==>
              && ValidRun(later, Deliver(loginId, loginChunks, loginEnv))
              && var r := Exec(later, Deliver(loginId, loginChunks, loginEnv));
                 r.Running? && r.log == [Checked(loginId, true)]
  {
    LoginSurvives(w, run, name, secret);
    RunKeepsInv(w, run);
    var later := Exec(w, run).world;
    forall other | other != secret ensures !Accepts(later.users, name, other) {
      AcceptsIsLookup(later.users, name, secret);
      AcceptsIsLookup(later.users, name, other);
    }
    if JustAccepted(later, loginId, loginEnv) {
      LoginIsAccepted(later, loginId, loginChunks, loginEnv, name, secret, behind);
    }
  }

  // ---------------------------------------------------------------------------
  // A deleted name stays out

  predicate CreatesName(a: Action, key: seq<byte>) {
    a.Executed? && a.change == Created(key)
  }

  predicate NeverCreated(log: seq<Action>, key: seq<byte>) {
    forall a :: a in log ==> !CreatesName(a, key)
  }

  lemma HandleUserKeepsAbsent(p: Cmd.Prawtos, users: seq<Account>, key: seq<byte>)
    requires key !in Names(users)
    ensures var h := HandleUser(p, users); h.Handled? && h.change != Created(key) ==> key !in Names(h.users)
  {
    var h := HandleUser(p, users);
    if h.Handled? && h.change != Created(key) && key in Names(h.users) {
      var i :| 0 <= i < |h.users| && h.users[i].key == key;
      AbsentUser(p, users, i);
    }
  }

  /** Every name in the registry that a handler leaves was there or is created. */
  lemma AbsentUser(p: Cmd.Prawtos, users: seq<Account>, i: nat)
    requires HandleUser(p, users).Handled? && i < |HandleUser(p, users).users|
    ensures var h := HandleUser(p, users);
            h.users[i].key in Names(users) || h.change == Created(h.users[i].key)
  {
    var h, d := HandleUser(p, users), IndexOf(users, CStr(p.uname));
    assert forall j :: 0 <= j < |users| ==> users[j].key == Names(users)[j];
    if p.userCmd == Cmd.CREATE {
      assert i < |users| ==> h.users[i] == users[i];
    } else if p.userCmd == Cmd.DELETE && d < |users| {
      assert h.users[i] == users[if i < d then i else i + 1];
    } else if p.userCmd == Cmd.EDIT {
      assert h.users[i].key == users[i].key;
    }
  }

  lemma StepKeepsAbsent(w: World, e: Event, key: seq<byte>)
    requires WorldInv(w) && Enabled(w, e) && Step(w, e).Running? && key !in Names(w.users)
    ensures NeverCreated(Step(w, e).log, key) ==> key !in Names(Step(w, e).world.users)
  {
    StepKeepsInv(w, e);
    match e
    case Accept =>
    case Readable(id, r, env) =>
      ReadEffect(w.sessions[id], id, w.users, r, env);
      var o := StmRead(w.sessions[id], id, w.users, r, env);
      if o.users != w.users && NeverCreated(o.log, key) {
        HandleUserKeepsAbsent(CommandReceived(w.sessions[id], r), w.users, key);
        assert !CreatesName(o.log[0], key);
      }
    case Writable(id, r) => WriteKeepsUsers(w.sessions[id], w.users, r);
  }

  lemma {:induction false} AbsentStays(w: World, run: seq<Event>, key: seq<byte>)
    requires WorldInv(w) && ValidRun(w, run) && Exec(w, run).Running? && key !in Names(w.users)
    requires NeverCreated(Exec(w, run).log, key)
    ensures key !in Names(Exec(w, run).world.users)
  {
    var inv := (v: World, log: seq<Action>) => WorldInv(v) && (NeverCreated(log, key) ==> key !in Names(v.users));
    forall v: World, log: seq<Action>, e: Event | inv(v, log) && Enabled(v, e) && Step(v, e).Running?
      ensures inv(Step(v, e).world, log + Step(v, e).log)
    {
      StepKeepsInv(v, e);
      if NeverCreated(log + Step(v, e).log, key) {
        assert NeverCreated(log, key) && NeverCreated(Step(v, e).log, key);
        StepKeepsAbsent(v, e, key);
      }
    }
    RunInvariant(inv, w, [], run);
    assert [] + Exec(w, run).log == Exec(w, run).log;
  }

  lemma DroppedIsAbsent(names: seq<seq<byte>>, key: seq<byte>)
    ensures key !in Dropped(names, key)
  {
  }

  lemma AbsentIsRefused(users: seq<Account>, name: seq<byte>, secret: seq<byte>)
    requires name !in Names(users)
    ensures !Accepts(users, name, secret)
  {
    assert forall i :: 0 <= i < |users| ==> users[i].key == Names(users)[i];
  }

  /** Once the client's delete message of a name is executed, no login of that name
      is accepted, whatever its password, in every later run until the name is
      created again. */
  lemma DeleteThenLogin(w: World, id: nat, chunks: seq<seq<byte>>, env: Env, name: seq<byte>, rest: seq<byte>,
                        run: seq<Event>, loginId: nat, loginChunks: seq<seq<byte>>, loginEnv: Env,
                        secret: seq<byte>, behind: seq<byte>)
    requires WorldInv(w) && AwaitsCommand(w, id, env) && Short(name) && ScanDefined(w.users, name)
    requires Sends(w.sessions[id], chunks, DeleteOf(name), rest) && SendsLogin(loginChunks, name, secret, behind)
    ensures ValidRun(w, Deliver(id, chunks, env)) && Exec(w, Deliver(id, chunks, env)).Running?
    ensures var deleted := Exec(w, Deliver(id, chunks, env)).world;
            ValidRun(deleted, run) && Exec(deleted, run).Running? && NeverCreated(Exec(deleted, run).log, name) ==>
              var later := Exec(deleted, run).world;
              JustAccepted(later, loginId, loginEnv) ==>
                && ValidRun(later, Deliver(loginId, loginChunks, loginEnv))
                && var r := Exec(later, Deliver(loginId, loginChunks, loginEnv));
                   if CheckDefined(later.users, name, secret)
                   then r.Running? && r.log == [Checked(loginId, false)] else r.Faulted?
  {
    TextOf(name);
    UserCommandTakesEffect(w, id, chunks, env, DeleteOf(name), rest);
    RunKeepsInv(w, Deliver(id, chunks, env));
    var deleted := Exec(w, Deliver(id, chunks, env)).world;
    DroppedIsAbsent(Names(w.users), name);
    if ValidRun(deleted, run) && Exec(deleted, run).Running? && NeverCreated(Exec(deleted, run).log, name) {
      AbsentIsNotLoggedIn(deleted, run, name, secret, loginId, loginChunks, loginEnv, behind);
    }
  }

  lemma AbsentIsNotLoggedIn(w: World, run: seq<Event>, name: seq<byte>, secret: seq<byte>, loginId: nat,
                            loginChunks: seq<seq<byte>>, loginEnv: Env, behind: seq<byte>)
    requires WorldInv(w) && name !in Names(w.users) && SendsLogin(loginChunks, name, secret, behind)
    requires ValidRun(w, run) && Exec(w, run).Running? && NeverCreated(Exec(w, run).log, name)
    ensures var later := Exec(w, run).world;
            JustAccepted(later, loginId, loginEnv) ==>
              && ValidRun(later, Deliver(loginId, loginChunks, loginEnv))
              && var r := Exec(later, Deliver(loginId, loginChunks, loginEnv));
                 if CheckDefined(later.users, name, secret)
                 then r.Running? && r.log == [Checked(loginId, false)] else r.Faulted?
  {
    AbsentStays(w, run, name);
    RunKeepsInv(w, run);
    var later := Exec(w, run).world;
    AbsentIsRefused(later.users, name, secret);
    if JustAccepted(later, loginId, loginEnv) {
      LoginIsAccepted(later, loginId, loginChunks, loginEnv, name, secret, behind);
    }
  }

  // ---------------------------------------------------------------------------
  // GET, QUIT and SNIFF

  /** The number that a client reads from big-endian bytes. */
  function Number(bytes: seq<byte>): nat {
    if bytes == [] then 0
    else
      var n := |bytes| - 1;
      256 * Number(bytes[..n]) + bytes[n]
  }

  /** The reply to a GET as the client reads it. */
  predicate IsGetReply(reply: seq<byte>, cmd: byte, env: Env, users: seq<Account>) {
    && |reply| >= 4 && reply[0] == 0 && reply[1] == cmd
    && (if cmd == 3 then reply[2] == |users| % 256 && IsListing(reply[3..], users)
        else reply[2] == 1 && reply[3] == |reply[4..]| && |reply[4..]| == (if cmd == 0 then 4 else 2)
             && Number(reply[4..]) == (if cmd == 0 then env.bytesSent % 0x1_0000_0000
                                       else if cmd == 1 then env.total % 0x1_0000 else env.concurrent % 0x1_0000))
  }

  lemma {:induction false} NumberSnoc(a: seq<byte>, low: byte)
    ensures Number(a + [low]) == 256 * Number(a) + low
  {
    assert (a + [low])[..|a|] == a;
  }

  lemma {:induction false} NumberOfTwo(high: byte, low: byte)
    ensures Number([high, low]) == 256 * (high as int) + low
  {
    NumberSnoc([], high);
    NumberSnoc([high], low);
    assert [] + [high] == [high] && [high] + [low] == [high, low];
  }

  lemma Digits(n: nat)
    ensures 256 * (n / 256 % 256) + n % 256 == n % 65536
  {
    var q := n / 256;
    var k := q / 256;
    assert n == 65536 * k + (256 * (q % 256) + n % 256);
  }

  lemma {:induction false} NumberOf2(n: nat)
    ensures |BigEndian2(n)| == 2 && Number(BigEndian2(n)) == n % 0x1_0000
  {
    NumberOfTwo(n / 0x100 % 0x100, n % 0x100);
    Digits(n);
  }

  lemma {:induction false} NumberJoin(a: seq<byte>, b: seq<byte>)
    requires |b| == 2
    ensures Number(a + b) == 0x1_0000 * Number(a) + Number(b)
  {
    NumberSnoc(a, b[0]);
    NumberSnoc(a + [b[0]], b[1]);
    NumberSnoc([], b[0]);
    NumberSnoc([b[0]], b[1]);
    assert a + b == (a + [b[0]]) + [b[1]] && b == [b[0]] + [b[1]] && [] + [b[0]] == [b[0]];
  }

  lemma Halves(n: nat)
    ensures n % 0x1_0000_0000 == 0x1_0000 * (n / 0x1_0000 % 0x1_0000) + n % 0x1_0000
    ensures n / 0x100_0000 == n / 0x1_0000 / 0x100
  {
    var q := n / 0x1_0000;
    var k := q / 0x1_0000;
    assert n == 0x1_0000_0000 * k + (0x1_0000 * (q % 0x1_0000) + n % 0x1_0000);
    assert q == 0x100 * (q / 0x100) + q % 0x100;
  }

  lemma {:induction false} NumberOf4(n: nat)
    ensures |BigEndian4(n)| == 4 && Number(BigEndian4(n)) == n % 0x1_0000_0000
  {
    var high, low := BigEndian2(n / 0x1_0000), BigEndian2(n);
    Halves(n);
    assert BigEndian4(n) == high + low;
    NumberOf2(n / 0x1_0000);
    NumberOf2(n);
    NumberJoin(high, low);
  }

  lemma GetArgsAre(cmd: byte, env: Env, users: seq<Account>)
    requires cmd < 4 && (cmd == 3 ==> users != [] && IsListing(env.listing, users))
    ensures var args := GetArgs(cmd, env);
            IsGetReply([0, cmd, if cmd == 3 then |users| % 256 else 1] + args, cmd, env, users)
  {
    NumberOf2(env.total);
    NumberOf2(env.concurrent);
    NumberOf4(env.bytesSent);
    var args := GetArgs(cmd, env);
    var reply := [0, cmd, if cmd == 3 then |users| % 256 else 1] + args;
    assert reply[3..] == args;
    if cmd == 3 {
      ListingHead(env.listing, users);
    } else {
      assert reply[4..] == args[1..];
    }
  }

  lemma GetDone(t: Session, id: nat, users: seq<Account>, env: Env, cmd: byte)
    requires cmd < 4 && t.output == Empty(BUFFER_SIZE) && Accounts.Valid(users)
    requires t.cmd.state == Cmd.Finished && t.cmd.kind == Cmd.GET && t.cmd.getCmd == cmd
    ensures var o := CmdDone(t, id, users, env);
            if cmd == 3 && FaultyListing(users) then o.Undefined?
            else o.Next? && o.next == CmdWrite && o.users == users && o.session.input == t.input
                 && o.session.output.contents == [0, cmd, if cmd == 3 then |users| % 256 else 1] + GetArgs(cmd, env)
  {
  }

  lemma GetSettles(w: World, id: nat, t: Session, env: Env, cmd: byte)
    requires Accounts.Valid(w.users) && cmd < 4 && t.output == Empty(BUFFER_SIZE)
    requires t.cmd.state == Cmd.Finished && t.cmd.kind == Cmd.GET && t.cmd.getCmd == cmd
    ensures var r := Settle(w, id, Jumped(CmdDone(t, id, w.users, env)));
            if cmd == 3 && FaultyListing(w.users) then r.Faulted?
            else r.Running? && r.world.users == w.users && id in r.world.sessions
                 && r.world.sessions[id].current == CmdWrite && r.world.sessions[id].input == t.input
                 && r.world.sessions[id].output.contents
                    == [0, cmd, if cmd == 3 then |w.users| % 256 else 1] + GetArgs(cmd, env)
  {
    GetDone(t, id, w.users, env, cmd);
    if !(cmd == 3 && FaultyListing(w.users)) {
      SettleLive(w, id, CmdDone(t, id, w.users, env));
    }
  }

  /** A GET under any chunking is answered with the counter it asks for, or with
      the listing of the users; nothing else changes. */
  lemma GetIsAnswered(w: World, id: nat, chunks: seq<seq<byte>>, env: Env, cmd: byte, rest: seq<byte>)
    requires WorldInv(w) && AwaitsCommand(w, id, env) && cmd < 4 && Sends(w.sessions[id], chunks, Cmd.Get(cmd), rest)
    ensures Cmd.Encode(Cmd.Get(cmd)) == [0, cmd]
    ensures ValidRun(w, Deliver(id, chunks, env))
    ensures var r := Exec(w, Deliver(id, chunks, env));
            if cmd == 3 && FaultyListing(w.users) then r.Faulted?
            else r.Running? && r.world.users == w.users && id in r.world.sessions
                 && r.world.sessions[id].current == CmdWrite && r.world.sessions[id].input.contents == rest
                 && IsGetReply(r.world.sessions[id].output.contents, cmd, env, w.users)
  {
    var t := MessageArrives(w, id, chunks, env, Cmd.Get(cmd), rest);
    GetSettles(w, id, t, env, cmd);
    if !(cmd == 3 && FaultyListing(w.users)) {
      GetArgsAre(cmd, env, w.users);
    }
  }

  /** A QUIT is answered with success and leaves the session writing that reply; a
      SNIFF ends the session without one. Neither changes the registry. */
  lemma QuitAndSniff(w: World, id: nat, chunks: seq<seq<byte>>, env: Env, m: Cmd.Message, rest: seq<byte>)
    requires WorldInv(w) && AwaitsCommand(w, id, env) && Sends(w.sessions[id], chunks, m, rest)
    requires m.Quit? || m.Sniff?
    ensures Cmd.Encode(m) == (if m.Quit? then [3] else [2, m.cmd])
    ensures ValidRun(w, Deliver(id, chunks, env))
    ensures var r := Exec(w, Deliver(id, chunks, env));
            && r.Running? && r.world.users == w.users
            && (m.Sniff? ==> r.world == w.(sessions := w.sessions - {id}))
            && (m.Quit? ==> id in r.world.sessions && r.world.sessions[id].current == CmdWrite
                            && r.world.sessions[id].cmd.kind == 3 && r.world.sessions[id].output.contents == [0])
  {
    var t := MessageArrives(w, id, chunks, env, m, rest);
  }

  // ---------------------------------------------------------------------------
  // Rejected commands

  /** A rejected command ends its session, and what it did to the registry stays. */
  lemma RejectedStep(w: World, id: nat, bytes: seq<byte>, env: Env, p: Cmd.Prawtos)
    requires WorldInv(w) && AwaitsCommand(w, id, env) && Enabled(w, Readable(id, Got(bytes), env)) && bytes != []
    requires p == CmdFed(w.sessions[id], bytes).cmd && Cmd.IsError(p.state) && !Cmd.Overran(p) && p.kind == Cmd.USER
    requires HandleUser(p, w.users).Handled?
    ensures var h := HandleUser(p, w.users);
            Step(w, Readable(id, Got(bytes), env)) ==
            Running(w.(sessions := w.sessions - {id}, users := h.users), [Executed(id, h.change)])
  {
  }

  lemma {:induction false} ThreeBytes(s: Session, a: byte, b: byte, c: byte)
    requires s.input == Empty(BUFFER_SIZE) && s.current == CmdRead
    requires var p1 := Cmd.Feed(s.cmd, a);
             var p2 := Cmd.Feed(p1, b);
             !Cmd.Done(p1) && !Cmd.Done(p2) && Cmd.Done(Cmd.Feed(p2, c))
    ensures CmdFed(s, [a, b, c]).cmd == Cmd.Feed(Cmd.Feed(Cmd.Feed(s.cmd, a), b), c)
  {
    ConsumeThree(Cmd.Feed, Cmd.Done, s.cmd, a, b, c);
    assert [] + [a, b, c] == [a, b, c];
  }

  /** The three bytes 1, 1, 0 delete the user with the empty name, if there is one,
      and end the session without a reply. */
  lemma RejectedDelete(w: World, id: nat, env: Env)
    requires WorldInv(w) && AwaitsCommand(w, id, env) && Cmd.Fresh(w.sessions[id].cmd)
    requires w.sessions[id].input == Empty(BUFFER_SIZE) && ScanDefined(w.users, [])
    ensures Enabled(w, Readable(id, Got([1, 1, 0]), env))
    ensures var r := Step(w, Readable(id, Got([1, 1, 0]), env));
            && r.Running? && r.world.sessions == w.sessions - {id}
            && ToMap(r.world.users) == ToMap(w.users) - {[]} && Names(r.world.users) == Dropped(Names(w.users), [])
  {
    var s := w.sessions[id];
    FeedRejected(s.cmd);
    ThreeBytes(s, 1, 1, 0);
    var p := CmdFed(s, [1, 1, 0]).cmd;
    assert CStr(p.uname) == [];
    RejectedStep(w, id, [1, 1, 0], env, p);
    DeleteRefines(w.users, []);
    DeleteOrder(w.users, []);
  }

  /** The three bytes 1, 0, 2 add a user with two empty blocks, if no user has the
      empty name, and end the session without a reply. */
  lemma RejectedCreate(w: World, id: nat, env: Env)
    requires WorldInv(w) && AwaitsCommand(w, id, env) && Cmd.Fresh(w.sessions[id].cmd)
    requires w.sessions[id].input == Empty(BUFFER_SIZE) && ScanDefined(w.users, [])
    ensures Enabled(w, Readable(id, Got([1, 0, 2]), env))
    ensures var r := Step(w, Readable(id, Got([1, 0, 2]), env));
            && r.Running? && r.world.sessions == w.sessions - {id}
            && r.world.users == w.users + if Present(w.users, []) then [] else [Account([], 0, [], 0, true)]
  {
    var s := w.sessions[id];
    FeedRejected(s.cmd);
    ThreeBytes(s, 1, 0, 2);
    var p := CmdFed(s, [1, 0, 2]).cmd;
    assert CStr(p.uname) == [] == CStr(p.passwd);
    RejectedStep(w, id, [1, 0, 2], env, p);
    assert w.users + [] == w.users;
  }

  // ---------------------------------------------------------------------------
  // Sessions

  /** Accepting a connection adds a session that waits for its login, and changes
      nothing else. */
  lemma AcceptOpens(w: World, env: Env)
    requires WorldInv(w) && Lists(env, w.users)
    ensures var r := Step(w, Accept);
            && r.Running? && r.log == [] && r.world.users == w.users && w.accepted !in w.sessions
            && JustAccepted(r.world, w.accepted, env) && r.world.sessions[w.accepted].interest == READ_ONLY
            && forall id :: id != w.accepted ==>
                 (id in r.world.sessions <==> id in w.sessions)
                 && (id in w.sessions ==> r.world.sessions[id] == w.sessions[id])
  {
  }

  /** An event of one session leaves every other session as it is. */
  lemma OthersUntouched(w: World, e: Event, other: nat)
    requires WorldInv(w) && Enabled(w, e) && Step(w, e).Running? && other in w.sessions
    requires e.Accept? || e.id != other
    ensures other in Step(w, e).world.sessions && Step(w, e).world.sessions[other] == w.sessions[other]
  {
    match e
    case Accept =>
    case Readable(id, r, env) =>
      SettleTouchesOne(w, id, StmRead(w.sessions[id], id, w.users, r, env), other);
    case Writable(id, r) =>
      SettleTouchesOne(w, id, StmWrite(w.sessions[id], w.users, r), other);
  }

  lemma SettleTouchesOne(w: World, id: nat, o: Outcome, other: nat)
    requires other in w.sessions && other != id && o.Next?
    ensures var r := Settle(w, id, o); other in r.world.sessions && r.world.sessions[other] == w.sessions[other]
  {
  }
}
