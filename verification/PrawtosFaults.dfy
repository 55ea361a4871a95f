/** Where the admin server leaves defined behaviour, exactly, and what commands do
    that the parser has already rejected. */
module PrawtosFaults {
  import opened Bytes
  import opened Io
  import opened LinearBuffer
  import opened Feeding
  import opened Accounts
  import opened PrawtosSession
  import opened PrawtosSafety
  import Auth = AuthParser
  import Cmd = PrawtosParser
  import opened ClientMessages

  /** The stored part of a field contains its NUL exactly when the string ends in it. */
  lemma StoredString(block: Field, n: nat)
    requires n <= FIELD_SIZE && Cmd.ZeroFrom(block, n)
    ensures |CStr(block)| < n <==> 0 in block[..n]
  {
    var s := CStr(block);
    if 0 in block[..n] {
      var i :| 0 <= i < n && block[i] == 0;
      CStrBefore(block, i);
    }
    if |s| < n {
      assert block[..n][|s|] == 0;
    }
  }

  /** The listing is empty, copies a name without NUL, leaves its block, or does
      not fit the reply buffer. */
  predicate FaultyListing(users: seq<Account>) {
    users == [] || !NamesEnd(users) || Overfills(users) || 3 + ListingSize(users) > BUFFER_SIZE
  }

  /** The command indexes beyond the handler table, its search runs past a stored
      block, or it edits a password that was received without NUL. */
  predicate FaultyUser(p: Cmd.Prawtos, users: seq<Account>) {
    || p.userCmd > Cmd.EDIT
    || !ScanDefined(users, CStr(p.uname))
    || (p.userCmd == Cmd.EDIT && Present(users, CStr(p.uname)) && 0 !in p.passwd[..p.plen])
  }

  /** The complete commands whose execution has no defined behaviour. */
  predicate Faulty(p: Cmd.Prawtos, users: seq<Account>) {
    if p.kind == Cmd.GET then p.getCmd == 3 && FaultyListing(users)
    else p.kind == Cmd.USER && FaultyUser(p, users)
  }

  lemma OverrunIsFaulty(p: Cmd.Prawtos, users: seq<Account>)
    requires Cmd.ZeroFrom(p.uname, p.ulen) && Cmd.ZeroFrom(p.passwd, p.plen)
    ensures HandleUser(p, users).Overrun? <==> FaultyUser(p, users)
  {
    StoredString(p.passwd, p.plen);
  }

  /** For every terminal parser state and the empty reply buffer that a session
      has when it reads: cmd_process is undefined exactly for a faulty command. */
  lemma {:induction false} FaultsExactly(s: Session, id: nat, users: seq<Account>, env: Env)
    requires Cmd.WellFormed(s.cmd) && Cmd.Done(s.cmd) && Accounts.Valid(users)
    requires s.output == Empty(BUFFER_SIZE)
    ensures CmdDone(s, id, users, env).Undefined? <==> Faulty(s.cmd, users)
  {
    var p := s.cmd;
    if p.kind == Cmd.USER {
      assert Cmd.ZeroFrom(p.uname, p.ulen) && Cmd.ZeroFrom(p.passwd, p.plen);
      OverrunIsFaulty(p, users);
    }
  }

  // ---------------------------------------------------------------------------
  // Over whole runs

  /** The bytes `r` complete a field of 255 bytes, a login whose comparisons run
      past a stored block, or a faulty command. */
  predicate CompletesFault(s: Session, users: seq<Account>, r: RecvResult) {
    r.Got? && r.bytes != [] &&
    var t := HandleFirst(s);
    if t.current == AuthRead then
      var a := AuthFed(t, r.bytes).auth;
      Auth.Overran(a) || (Auth.Done(a) && !CheckDefined(users, CStr(a.uname), CStr(a.passwd)))
    else
      var p := CmdFed(t, r.bytes).cmd;
      Cmd.Overran(p) || (Cmd.Done(p) && Faulty(p, users))
  }

  lemma ReadFaultsExactly(s: Session, id: nat, users: seq<Account>, r: RecvResult, env: Env)
    requires SessionInv(s) && !ReadAborts(s) && Accounts.Valid(users)
    ensures StmRead(s, id, users, r, env).Undefined? <==> CompletesFault(s, users, r)
  {
    if s.current == CmdRead && r.Got? && r.bytes != [] {
      ConsumeKeepsWellFormed(s.cmd, s.input.contents + r.bytes);
      var t := CmdFed(s, r.bytes);
      if Cmd.Done(t.cmd) {
        FaultsExactly(t, id, users, env);
      }
    }
  }

  /** In every run of the server: the next event leads to undefined behaviour
      exactly when it completes such a field or request. */
  lemma {:induction false} RunFaultsExactly(users: seq<Account>, run: seq<Event>, e: Event)
    requires Accounts.Valid(users) && ValidRun(Boot(users), run) && Exec(Boot(users), run).Running?
    requires Enabled(Exec(Boot(users), run).world, e)
    ensures var w := Exec(Boot(users), run).world;
            Step(w, e).Faulted? <==> e.Readable? && CompletesFault(w.sessions[e.id], w.users, e.recv)
  {
    RunKeepsInv(Boot(users), run);
    var w := Exec(Boot(users), run).world;
    StepKeepsInv(w, e);
    if e.Readable? {
      ReadFaultsExactly(w.sessions[e.id], e.id, w.users, e.recv, e.env);
    }
  }

  /** Name blocks that the protocol itself can create. */
  predicate ShortNames(users: seq<Account>) {
    forall i :: 0 <= i < |users| ==> users[i].ulen <= 254
  }

  lemma HandleUserKeepsShort(p: Cmd.Prawtos, users: seq<Account>)
    requires ShortNames(users) && Cmd.WellFormed(p) && Cmd.Done(p) && !Cmd.Overran(p)
    ensures var h := HandleUser(p, users); h.Handled? ==> ShortNames(h.users)
  {
  }

  lemma EffectKeepsShort(o: Outcome, s: Session, id: nat, users: seq<Account>, r: RecvResult)
    requires ShortNames(users) && SessionInv(s) && EffectOf(o, s, id, users, r)
    ensures o.Next? ==> ShortNames(o.users)
  {
    if o.Next? && o.users != users {
      if r.Got? {
        ConsumeKeepsWellFormed(s.cmd, s.input.contents + r.bytes);
      }
      HandleUserKeepsShort(CommandReceived(s, r), users);
    }
  }

  lemma StepKeepsShort(w: World, e: Event)
    requires WorldInv(w) && ShortNames(w.users) && Enabled(w, e) && Step(w, e).Running?
    ensures ShortNames(Step(w, e).world.users)
  {
    match e
    case Accept =>
    case Readable(id, r, env) =>
      var s := w.sessions[id];
      ReadEffect(s, id, w.users, r, env);
      EffectKeepsShort(StmRead(s, id, w.users, r, env), s, id, w.users, r);
    case Writable(id, r) => WriteKeepsTrust(w.sessions[id], id, w.users, r);
  }

  /** A server started without 255-byte name blocks never gets one, so no run of
      it makes the listing leave its block. */
  lemma {:induction false} ListingStaysInside(users: seq<Account>, run: seq<Event>)
    requires Accounts.Valid(users) && ShortNames(users) && ValidRun(Boot(users), run) && Exec(Boot(users), run).Running?
    ensures ShortNames(Exec(Boot(users), run).world.users) && !Overfills(Exec(Boot(users), run).world.users)
  {
    var inv := (w: World, log: seq<Action>) => WorldInv(w) && ShortNames(w.users);
    forall w: World, log: seq<Action>, e: Event | inv(w, log) && Enabled(w, e) && Step(w, e).Running?
      ensures inv(Step(w, e).world, log + Step(w, e).log)
    {
      StepKeepsInv(w, e);
      StepKeepsShort(w, e);
    }
    RunInvariant(inv, Boot(users), [], run);
  }

  // ---------------------------------------------------------------------------
  // Blocks without NUL

  /** A create without NUL is defined, but what it stores is not a string: of all
      defined commands exactly such a create ends the termination of all blocks. */
  lemma StoresUnterminatedExactly(p: Cmd.Prawtos, users: seq<Account>)
    requires AllTerminated(users) && Cmd.WellFormed(p) && Cmd.Done(p) && HandleUser(p, users).Handled?
    ensures var h := HandleUser(p, users);
            AllTerminated(h.users) <==>
            !(h.change.Created? && (0 !in p.uname[..p.ulen] || 0 !in p.passwd[..p.plen]))
  {
    var h := HandleUser(p, users);
    var name, secret := CStr(p.uname), CStr(p.passwd);
    if h.change.Created? {
      var a := Account(name, p.ulen, secret, p.plen, p.admin != 0);
      TerminatedOnTheWire(p);
      AddTerminated(users, a);
    } else if p.userCmd == Cmd.DELETE {
      DeleteTerminated(users, name);
    } else if h.change.Edited? {
      EditTerminated(users, name, secret, p.plen);
    }
  }

  lemma TerminatedOnTheWire(p: Cmd.Prawtos)
    requires Cmd.WellFormed(p) && Cmd.Done(p)
    ensures |CStr(p.uname)| < p.ulen <==> 0 in p.uname[..p.ulen]
    ensures |CStr(p.passwd)| < p.plen <==> 0 in p.passwd[..p.plen]
  {
    StoredString(p.uname, p.ulen);
    StoredString(p.passwd, p.plen);
  }

  /** The effect shows later: a user stored as "a" without NUL makes a search
      undefined exactly for the names that start with "a". */
  lemma UnterminatedNameFaultsLater(s: seq<byte>)
    ensures var users := [Account([97], 1, [98], 1, true)];
            Accounts.Valid(users) && (ScanDefined(users, s) <==> !([97] <= s))
  {
    var users := [Account([97], 1, [98], 1, true)];
    assert users[0].key == [97];
  }

  // ---------------------------------------------------------------------------
  // The client's own messages

  /** The messages of add_new_user, remove_user and modify_user. */
  predicate FromClient(m: Cmd.Message, name: seq<byte>, secret: seq<byte>) {
    && Typed(name) && Typed(secret) && m.User?
    && (|| (m.cmd == Cmd.CREATE && m.admin <= 1 && m.passwd == secret + [0])
        || (m.cmd == Cmd.DELETE && m.admin == 0 && m.passwd == [])
        || (m.cmd == Cmd.EDIT && m.admin == 0 && m.passwd == secret + [0]))
    && m.name == name + [0]
  }

  lemma ClientBlocks(p: Cmd.Prawtos, m: Cmd.Message, name: seq<byte>, secret: seq<byte>)
    requires FromClient(m, name, secret) && Cmd.WellFormed(p) && p.state == Cmd.Finished && Cmd.Decode(p) == m
    ensures CStr(p.uname) == name && p.ulen == |name| + 1
    ensures m.cmd != Cmd.DELETE ==> 0 in p.passwd[..p.plen] && p.plen == |secret| + 1
  {
    assert p.uname[..p.ulen] == name + [0];
    assert p.uname == name + [0] + p.uname[p.ulen..];
    CStrOfTerminated(name, p.uname[p.ulen..]);
    if m.cmd != Cmd.DELETE {
      assert p.passwd[..p.plen] == secret + [0];
      assert p.passwd[..p.plen][|secret|] == 0;
    }
  }

  /** For every message the client can build, and every registry: the server's
      behaviour is undefined exactly when a string has 254 characters or the search
      for the name runs past a block, which no registry with its NULs allows. */
  lemma {:induction false} ClientCommandsFaultExactly(start: Cmd.Prawtos, m: Cmd.Message, name: seq<byte>,
                                                      secret: seq<byte>, users: seq<Account>)
    requires Cmd.Fresh(start) && FromClient(m, name, secret)
    ensures m.Valid()
    ensures var (p, rest) := Consume(Cmd.Feed, Cmd.Done, start, Cmd.Encode(m));
            && rest == [] && p.state == Cmd.Finished && Cmd.Decode(p) == m
            && (Cmd.Overran(p) <==> |name| == 254 || (m.cmd != Cmd.DELETE && |secret| == 254))
            && (Faulty(p, users) <==> !ScanDefined(users, name))
            && (AllTerminated(users) ==> !Faulty(p, users))
  {
    Cmd.ParsesMessage(start, m, []);
    assert Cmd.Encode(m) + [] == Cmd.Encode(m);
    var p := Consume(Cmd.Feed, Cmd.Done, start, Cmd.Encode(m)).0;
    ClientBlocks(p, m, name, secret);
    if AllTerminated(users) {
      TerminatedIsDefined(users, name, secret);
    }
  }

  // ---------------------------------------------------------------------------
  // Rejected commands

  /** cmd_read executes a command even when the parser rejected it. Of the
      rejected commands that have defined behaviour, exactly a delete with a zero
      length byte, when some user has the empty name, and a create of an absent
      name change the registry. */
  lemma RejectedCommandEffect(s: Session, id: nat, users: seq<Account>, env: Env)
    requires Cmd.WellFormed(s.cmd) && Cmd.IsError(s.cmd.state) && Accounts.Valid(users)
    ensures var o, p := CmdDone(s, id, users, env), s.cmd;
            o.Next? ==>
              && o.next == Errored
              && (o.users != users <==>
                    && p.kind == Cmd.USER
                    && (|| (p.userCmd == Cmd.DELETE && Present(users, []))
                        || (p.userCmd == Cmd.CREATE && !Present(users, CStr(p.uname)))))
  {
    var p := s.cmd;
    if p.kind == Cmd.USER {
      StoredString(p.passwd, p.plen);
      if p.userCmd == Cmd.DELETE {
        assert p.ulen == 0 && p.uname[0] == 0;
        assert CStr(p.uname) == [];
      }
    }
  }

  lemma FeedRejected(start: Cmd.Prawtos)
    requires Cmd.Fresh(start)
    ensures var p1 := Cmd.Feed(start, Cmd.USER);
            var p2, q2 := Cmd.Feed(p1, Cmd.DELETE), Cmd.Feed(p1, Cmd.CREATE);
            var p3, q3 := Cmd.Feed(p2, 0), Cmd.Feed(q2, 2);
            && !Cmd.Done(p1) && !Cmd.Done(p2) && Cmd.IsError(p3.state)
            && p3.userCmd == Cmd.DELETE && p3.uname == start.uname && p3.uname[0] == 0
            && !Cmd.Done(q2) && Cmd.IsError(q3.state) && q3.userCmd == Cmd.CREATE && q3.admin == 2
            && q3.uname == start.uname && q3.passwd == start.passwd && q3.passwd[0] == 0 && q3.ulen == 0 == q3.plen
  {
  }

  /** Such a delete exists: the three bytes USER, DELETE, 0. */
  lemma RejectedDeleteTakesEffect(start: Cmd.Prawtos)
    requires Cmd.Fresh(start)
    ensures var (p, rest) := Consume(Cmd.Feed, Cmd.Done, start, [Cmd.USER, Cmd.DELETE, 0]);
            && rest == [] && Cmd.IsError(p.state)
            && HandleUser(p, [Account([], 1, [], 1, false)]) == Handled([], Deleted([]))
  {
    FeedRejected(start);
    ConsumeThree(Cmd.Feed, Cmd.Done, start, Cmd.USER, Cmd.DELETE, 0);
    assert CStr(start.uname) == [];
    var users := [Account([], 1, [], 1, false)];
    assert IndexOf(users, []) == 0 && Without(users, 0) == [];
  }

  /** Such a create exists: the three bytes USER, CREATE, 2. It stores a user with
      two empty blocks, with which no name can be compared. */
  lemma RejectedCreateTakesEffect(start: Cmd.Prawtos, s: seq<byte>)
    requires Cmd.Fresh(start)
    ensures var (p, rest) := Consume(Cmd.Feed, Cmd.Done, start, [Cmd.USER, Cmd.CREATE, 2]);
            var users := [Account([], 0, [], 0, true)];
            && rest == [] && Cmd.IsError(p.state)
            && HandleUser(p, []) == Handled(users, Created([])) && !ScanDefined(users, s)
  {
    FeedRejected(start);
    ConsumeThree(Cmd.Feed, Cmd.Done, start, Cmd.USER, Cmd.CREATE, 2);
    assert CStr(start.uname) == [] == CStr(start.passwd);
    var users := [Account([], 0, [], 0, true)];
    assert [] + users == users;
    assert RunsPast(users[0].key, users[0].ulen, s);
  }

  // ---------------------------------------------------------------------------
  // Registries whose listing is faulty

  /** Users with 253-character names that differ in their first character. */
  function Numbered(n: nat): (users: seq<Account>)
    requires n <= 255
    ensures |users| == n
  {
    if n == 0 then [] else Numbered(n - 1) + [Account([n] + Letters(252), 254, [65], 2, false)]
  }

  lemma {:induction false} NumberedAre(n: nat, i: nat)
    requires i < n <= 255
    ensures Numbered(n)[i] == Account([i + 1] + Letters(252), 254, [65], 2, false)
  {
    if i < n - 1 {
      NumberedAre(n - 1, i);
    }
  }

  lemma {:induction false} NumberedSize(n: nat)
    requires n <= 255
    ensures ListingSize(Numbered(n)) == 255 * n
  {
    if n > 0 {
      NumberedSize(n - 1);
      assert Numbered(n)[..n - 1] == Numbered(n - 1);
    }
  }

  lemma NumberedValid(n: nat)
    requires n <= 255
    ensures Accounts.Valid(Numbered(n)) && AllTerminated(Numbered(n)) && ShortNames(Numbered(n))
  {
    var users := Numbered(n);
    forall i | 0 <= i < n ensures users[i] == Account([i + 1] + Letters(252), 254, [65], 2, false) {
      NumberedAre(n, i);
    }
    assert forall i :: 0 <= i < n ==> users[i].key[0] == i + 1;
  }

  /** Seventeen users that the protocol can create have a listing that overruns
      the reply buffer; the crowded registries have one that leaves its block. */
  lemma FaultyListingExamples()
    ensures Accounts.Valid(Numbered(17)) && ShortNames(Numbered(17)) && ListingDefined(Numbered(17))
    ensures 3 + ListingSize(Numbered(17)) > BUFFER_SIZE && FaultyListing(Numbered(17))
    ensures FaultyListing(Crowded(254)) && 3 + ListingSize(Crowded(254)) <= BUFFER_SIZE
    ensures FaultyListing(Crowded(10))
  {
    NumberedValid(17);
    NumberedSize(17);
    OverfillExamples();
    CrowdedMeets(254);
  }
}
