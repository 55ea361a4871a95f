/** Who can lead the admin server to undefined behaviour before logging in: only
    someone whose own login fills a field, or who meets a block without NUL that a
    logged-in session stored. */
module PrawtosTrust {
  import opened Bytes
  import opened Io
  import opened LinearBuffer
  import opened Feeding
  import opened Accounts
  import opened PrawtosSession
  import opened PrawtosSafety
  import opened PrawtosFaults
  import Auth = AuthParser
  import Cmd = PrawtosParser

  /** A session created this name, and had logged in before. */
  predicate CreatedAt(log: seq<Action>, k: nat, key: seq<byte>) {
    k < |log| && log[k].Executed? && log[k].change == Created(key) && LoggedIn(log[..k], log[k].id)
  }

  ghost predicate CreatedByLoggedIn(log: seq<Action>, key: seq<byte>) {
    exists k: nat :: CreatedAt(log, k, key)
  }

  /** Every block without NUL was stored by a logged-in session. */
  ghost predicate Explained(users: seq<Account>, log: seq<Action>) {
    forall i :: 0 <= i < |users| && !users[i].Terminated() ==> CreatedByLoggedIn(log, users[i].key)
  }

  lemma CreatedStays(log: seq<Action>, more: seq<Action>, key: seq<byte>)
    requires CreatedByLoggedIn(log, key)
    ensures CreatedByLoggedIn(log + more, key)
  {
    var k: nat :| CreatedAt(log, k, key);
    assert (log + more)[..k] == log[..k];
    assert CreatedAt(log + more, k, key);
  }

  lemma ExplainedStays(users: seq<Account>, log: seq<Action>, more: seq<Action>)
    requires Explained(users, log)
    ensures Explained(users, log + more)
  {
    forall i | 0 <= i < |users| && !users[i].Terminated() ensures CreatedByLoggedIn(log + more, users[i].key) {
      CreatedStays(log, more, users[i].key);
    }
  }

  /** A user in the registry that a handler leaves: one of before, or the one that
      a create added, or one that an edit gave a terminated password. */
  lemma HandledUser(p: Cmd.Prawtos, users: seq<Account>, i: nat)
    requires HandleUser(p, users).Handled? && i < |HandleUser(p, users).users|
    ensures var h := HandleUser(p, users);
            !h.users[i].Terminated() ==>
              (exists j :: 0 <= j < |users| && users[j].key == h.users[i].key && !users[j].Terminated())
              || h.change == Created(h.users[i].key)
  {
    var h := HandleUser(p, users);
    var name := CStr(p.uname);
    var d := IndexOf(users, name);
    if p.userCmd == Cmd.CREATE {
      assert i < |users| ==> h.users[i] == users[i];
    } else if p.userCmd == Cmd.DELETE && d < |users| {
      assert h.users[i] == users[if i < d then i else i + 1];
    } else if p.userCmd == Cmd.EDIT {
      assert h.users[i].key == users[i].key && h.users[i].ulen == users[i].ulen;
    }
  }

  lemma HandledExplained(p: Cmd.Prawtos, users: seq<Account>, log: seq<Action>, id: nat)
    requires HandleUser(p, users).Handled? && Explained(users, log) && LoggedIn(log, id)
    ensures var h := HandleUser(p, users); Explained(h.users, log + [Executed(id, h.change)])
  {
    var h := HandleUser(p, users);
    var all := log + [Executed(id, h.change)];
    forall i | 0 <= i < |h.users| && !h.users[i].Terminated() ensures CreatedByLoggedIn(all, h.users[i].key) {
      HandledUser(p, users, i);
      if h.change == Created(h.users[i].key) {
        assert all[..|log|] == log;
        assert CreatedAt(all, |log|, h.users[i].key);
      } else {
        var j :| 0 <= j < |users| && users[j].key == h.users[i].key && !users[j].Terminated();
        CreatedStays(log, [Executed(id, h.change)], users[j].key);
      }
    }
  }

  ghost predicate TrustInv(w: World, log: seq<Action>) {
    WorldInv(w) && Trusted(w, log) && Authorised(log) && Explained(w.users, log)
  }

  lemma ReadKeepsExplained(w: World, log: seq<Action>, id: nat, o: Outcome, r: RecvResult)
    requires id in w.sessions && Trusted(w, log) && Explained(w.users, log)
    requires EffectOf(o, w.sessions[id], id, w.users, r) && o.Next?
    ensures Explained(o.users, log + o.log)
  {
    if o.users == w.users {
      ExplainedStays(w.users, log, o.log);
    } else {
      HandledExplained(CommandReceived(w.sessions[id], r), w.users, log, id);
    }
  }

  lemma StepKeepsExplained(w: World, log: seq<Action>, e: Event)
    requires TrustInv(w, log) && Enabled(w, e) && Step(w, e).Running?
    ensures Explained(Step(w, e).world.users, log + Step(w, e).log)
  {
    match e
    case Accept => ExplainedStays(w.users, log, []);
    case Readable(id, r, env) =>
      ReadEffect(w.sessions[id], id, w.users, r, env);
      ReadKeepsExplained(w, log, id, StmRead(w.sessions[id], id, w.users, r, env), r);
    case Writable(id, r) =>
      WriteKeepsTrust(w.sessions[id], id, w.users, r);
      ExplainedStays(w.users, log, []);
  }

  lemma {:induction false} RunKeepsTrustInv(users: seq<Account>, run: seq<Event>)
    requires Accounts.Valid(users) && AllTerminated(users)
    requires ValidRun(Boot(users), run) && Exec(Boot(users), run).Running?
    ensures var r := Exec(Boot(users), run); TrustInv(r.world, r.log)
  {
    var inv := (w: World, log: seq<Action>) => TrustInv(w, log);
    forall w: World, log: seq<Action>, e: Event | inv(w, log) && Enabled(w, e) && Step(w, e).Running?
      ensures inv(Step(w, e).world, log + Step(w, e).log)
    {
      StepKeepsInv(w, e);
      StepKeepsTrust(w, log, e);
      StepKeepsExplained(w, log, e);
    }
    assert Trusted(Boot(users), []) && Authorised([]);
    RunInvariant(inv, Boot(users), [], run);
    assert [] + Exec(Boot(users), run).log == Exec(Boot(users), run).log;
  }

  /** A comparison of this login runs past a block of a user that a logged-in
      session created. */
  ghost predicate MeetsStoredBlock(a: Auth.Auth, users: seq<Account>, log: seq<Action>) {
    exists i :: 0 <= i < |users| && !Comparable(users[i], CStr(a.uname), CStr(a.passwd))
                && CreatedByLoggedIn(log, users[i].key)
  }

  lemma UndefinedCheckMeets(a: Auth.Auth, users: seq<Account>, log: seq<Action>)
    requires Explained(users, log) && !CheckDefined(users, CStr(a.uname), CStr(a.passwd))
    ensures MeetsStoredBlock(a, users, log)
  {
    var i :| 0 <= i < |users| && !Comparable(users[i], CStr(a.uname), CStr(a.passwd));
    OnlyOpenBlocksMeet(users[i], CStr(a.uname), CStr(a.passwd));
  }

  lemma OnlyOpenBlocksMeet(a: Account, uname: seq<byte>, passwd: seq<byte>)
    requires !Comparable(a, uname, passwd)
    ensures !a.Terminated()
  {
  }

  /** For a server started with terminated blocks: in every run, when an event of
      a session that has not logged in leads to undefined behaviour, it is a read in
      the login phase whose bytes complete a 255-byte field, or a login that runs
      past a block which a logged-in session stored. */
  lemma {:induction false} StrangersFaultOnly(users: seq<Account>, run: seq<Event>, e: Event)
    requires Accounts.Valid(users) && AllTerminated(users)
    requires ValidRun(Boot(users), run) && Exec(Boot(users), run).Running?
    requires var r := Exec(Boot(users), run); Enabled(r.world, e) && Step(r.world, e).Faulted?
    requires e.Accept? || !LoggedIn(Exec(Boot(users), run).log, e.id)
    ensures e.Readable? && e.recv.Got?
    ensures var r := Exec(Boot(users), run);
            var s := HandleFirst(r.world.sessions[e.id]);
            && s.current == AuthRead
            && var a := AuthFed(s, e.recv.bytes).auth;
               Auth.Overran(a) || (Auth.Done(a) && MeetsStoredBlock(a, r.world.users, r.log))
  {
    RunFaultsExactly(users, run, e);
    RunKeepsTrustInv(users, run);
    var r := Exec(Boot(users), run);
    var s := HandleFirst(r.world.sessions[e.id]);
    StepKeepsInv(r.world, e);
    assert s.current == AuthRead;
    var a := AuthFed(s, e.recv.bytes).auth;
    if !Auth.Overran(a) {
      UndefinedCheckMeets(a, r.world.users, r.log);
    }
  }
}
