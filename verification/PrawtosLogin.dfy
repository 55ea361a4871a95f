/** From "create admin" to "login accepted": what a run does to one account. */
module PrawtosLogin {
  import opened Bytes
  import opened Io
  import opened LinearBuffer
  import opened Feeding
  import opened Accounts
  import opened PrawtosSession
  import opened PrawtosSafety
  import Auth = AuthParser
  import Cmd = PrawtosParser
  import opened ClientMessages

  // ---------------------------------------------------------------------------
  // An accepted login stays accepted

  predicate Touches(a: Action, key: seq<byte>) {
    a.Executed? && (a.change == Deleted(key) || a.change == Edited(key))
  }

  predicate Untouched(log: seq<Action>, key: seq<byte>) {
    forall a :: a in log ==> !Touches(a, key)
  }

  lemma HandleUserKeepsLogin(p: Cmd.Prawtos, users: seq<Account>, key: seq<byte>, secret: seq<byte>)
    requires Honours(users, key, secret)
    ensures var h := HandleUser(p, users);
            h.Handled? && h.change != Deleted(key) && h.change != Edited(key) ==> Honours(h.users, key, secret)
  {
    var h := HandleUser(p, users);
    var name, pass := CStr(p.uname), CStr(p.passwd);
    if h.Handled? && h.change != Deleted(key) && h.change != Edited(key) {
      match h.change
      case Created(_) => AddKeepsLogin(users, Account(name, p.ulen, pass, p.plen, p.admin != 0), key, secret);
      case Deleted(_) => DeleteKeepsLogin(users, name, key, secret);
      case Edited(_) => EditKeepsLogin(users, name, pass, p.plen, key, secret);
      case NoChange => assert h.users == users;
    }
  }

  lemma StepKeepsLogin(w: World, e: Event, key: seq<byte>, secret: seq<byte>)
    requires WorldInv(w) && Enabled(w, e) && Honours(w.users, key, secret)
    ensures var r := Step(w, e); r.Running? && Untouched(r.log, key) ==> Honours(r.world.users, key, secret)
  {
    StepKeepsInv(w, e);
    match e
    case Accept =>
    case Readable(id, r, env) =>
      var o := StmRead(w.sessions[id], id, w.users, r, env);
      ReadEffect(w.sessions[id], id, w.users, r, env);
      if o.Next? && o.users != w.users && Untouched(o.log, key) {
        HandleUserKeepsLogin(CommandReceived(w.sessions[id], r), w.users, key, secret);
        assert !Touches(o.log[0], key);
      }
    case Writable(id, r) =>
      WriteKeepsTrust(w.sessions[id], id, w.users, r);
  }

  /** A login that is accepted stays accepted in every later run until a delete
      or an edit of that name succeeds. No account that others create on the way,
      terminated or not, makes its comparisons undefined. */
  lemma LoginSurvives(w: World, run: seq<Event>, key: seq<byte>, secret: seq<byte>)
    requires WorldInv(w) && ValidRun(w, run) && Honours(w.users, key, secret)
    requires Exec(w, run).Running? && Untouched(Exec(w, run).log, key)
    ensures Honours(Exec(w, run).world.users, key, secret)
  {
    var inv := (v: World, log: seq<Action>) => WorldInv(v) && (Untouched(log, key) ==> Honours(v.users, key, secret));
    forall v: World, log: seq<Action>, e: Event | inv(v, log) && Enabled(v, e) && Step(v, e).Running?
      ensures inv(Step(v, e).world, log + Step(v, e).log)
    {
      StepKeepsInv(v, e);
      if Untouched(log + Step(v, e).log, key) {
        assert Untouched(log, key) && Untouched(Step(v, e).log, key);
        StepKeepsLogin(v, e, key, secret);
      }
    }
    RunInvariant(inv, w, [], run);
    assert [] + Exec(w, run).log == Exec(w, run).log;
  }

  // ---------------------------------------------------------------------------
  // Messages that arrive in pieces

  function Deliver(id: nat, chunks: seq<seq<byte>>, env: Env): seq<Event> {
    if chunks == [] then [] else [Readable(id, Got(chunks[0]), env)] + Deliver(id, chunks[1..], env)
  }

  /** What recv can return: something, and no more than the buffer has room for;
      after a piece that completes nothing, that is the whole buffer. */
  predicate Pieces(q: Queue, chunks: seq<seq<byte>>) {
    && chunks != [] && |chunks[0]| <= q.Room()
    && forall i :: 0 <= i < |chunks| ==> 0 < |chunks[i]| <= BUFFER_SIZE
  }

  /** A message behind which `rest` remains ends in the last piece. */
  predicate EndsInLast(chunks: seq<seq<byte>>, rest: seq<byte>)
    requires chunks != []
  {
    |chunks| == 1 || |rest| < |chunks[|chunks| - 1]|
  }

  /** The read buffer that the last piece meets. */
  function LastBuffer(q: Queue, chunks: seq<seq<byte>>): Queue {
    if |chunks| == 1 then q else Empty(BUFFER_SIZE)
  }

  /** The read buffer after the last piece. */
  function Behind(q: Queue, chunks: seq<seq<byte>>, rest: seq<byte>): Queue
    requires chunks != [] && |rest| <= |LastBuffer(q, chunks).contents| + |chunks[|chunks| - 1]|
  {
    var last, met := chunks[|chunks| - 1], LastBuffer(q, chunks);
    met.Put(last).Take(|met.contents| + |last| - |rest|)
  }

  lemma {:induction false} LastIsIncluded(chunks: seq<seq<byte>>)
    requires chunks != []
    ensures |Concat(chunks)| >= |chunks[|chunks| - 1]|
  {
    if |chunks| > 1 {
      LastIsIncluded(chunks[1..]);
    }
  }

  /** A message that ends in the last piece is not complete before it. */
  lemma {:induction false} FirstPieceLeavesMore<P>(feed: Feeder<P>, done: P -> bool, start: P, buffered: seq<byte>,
                                                   chunks: seq<seq<byte>>, p: P, rest: seq<byte>) returns (q: P)
    requires |chunks| > 1 && chunks[0] != [] && EndsInLast(chunks, rest)
    requires Consume(feed, done, start, buffered + Concat(chunks)) == (p, rest)
    ensures Consume(feed, done, start, buffered + chunks[0]) == (q, []) && !done(q)
    ensures Consume(feed, done, q, Concat(chunks[1..])) == (p, rest)
  {
    var first, others := buffered + chunks[0], Concat(chunks[1..]);
    assert buffered + Concat(chunks) == first + others;
    ConsumeSplit(feed, done, start, first, others);
    LastIsIncluded(chunks[1..]);
    var left: seq<byte>;
    q, left := Consume(feed, done, start, first).0, Consume(feed, done, start, first).1;
    assert |left + others| >= |chunks[|chunks| - 1]|;
  }

  lemma PrependEvent(w: World, e: Event, w': World, rest: seq<Event>)
    requires Enabled(w, e) && Step(w, e) == Running(w', []) && ValidRun(w', rest)
    ensures ValidRun(w, [e] + rest) && Exec(w, [e] + rest) == Exec(w', rest)
  {
    var run := [e] + rest;
    assert run[0] == e && run[1..] == rest;
    var r := Exec(w', rest);
    if r.Running? {
      assert [] + r.log == r.log;
    }
  }

  /** The session waits for a command; its buffer may hold bytes already. */
  predicate AwaitsCommand(w: World, id: nat, env: Env) {
    && id in w.sessions && w.sessions[id].current == CmdRead && w.sessions[id].interest.read
    && w.sessions[id].input.Valid() && w.sessions[id].input.capacity == BUFFER_SIZE && Lists(env, w.users)
  }

  lemma StepStays(w: World, id: nat, r: RecvResult, env: Env, t: Session)
    requires Enabled(w, Readable(id, r, env)) && !ReadAborts(w.sessions[id]) && IsLive(t.current)
    requires StmRead(w.sessions[id], id, w.users, r, env) == Next(t.current, t, w.users, [])
    ensures Step(w, Readable(id, r, env)) == Running(w.(sessions := w.sessions[id := t]), [])
  {
  }

  /** A piece that leaves the parser unfinished only moves the parser on. */
  lemma CommandPiece(w: World, id: nat, bytes: seq<byte>, env: Env, t: Session)
    requires AwaitsCommand(w, id, env) && 0 < |bytes| <= w.sessions[id].input.Room()
    requires t == CmdFed(w.sessions[id], bytes) && !Cmd.Done(t.cmd) && !Cmd.Overran(t.cmd)
    ensures Enabled(w, Readable(id, Got(bytes), env))
    ensures Step(w, Readable(id, Got(bytes), env)) == Running(w.(sessions := w.sessions[id := t]), [])
  {
    StepStays(w, id, Got(bytes), env, t);
  }

  /** The piece that completes a command has it executed. */
  lemma CommandLastPiece(w: World, id: nat, bytes: seq<byte>, env: Env, t: Session)
    requires AwaitsCommand(w, id, env) && 0 < |bytes| <= w.sessions[id].input.Room()
    requires t == CmdFed(w.sessions[id], bytes) && Cmd.Done(t.cmd) && !Cmd.Overran(t.cmd)
    ensures Enabled(w, Readable(id, Got(bytes), env))
    ensures Step(w, Readable(id, Got(bytes), env)) == Settle(w, id, Jumped(CmdDone(t, id, w.users, env)))
  {
  }

  /** A piece that completes nothing leaves the buffer empty and rewound. */
  lemma CmdFedWhole(s: Session, bytes: seq<byte>, q: Cmd.Prawtos)
    requires s.input.capacity == BUFFER_SIZE
    requires Consume(Cmd.Feed, Cmd.Done, s.cmd, s.input.contents + bytes) == (q, [])
    ensures CmdFed(s, bytes) == s.(cmd := q, input := Empty(BUFFER_SIZE))
  {
  }

  /** The bytes `chunks` that follow the buffer complete `p` in the last piece. */
  predicate Completes(s: Session, chunks: seq<seq<byte>>, p: Cmd.Prawtos, rest: seq<byte>) {
    && Pieces(s.input, chunks) && EndsInLast(chunks, rest) && Cmd.Done(p) && !Cmd.Overran(p)
    && Consume(Cmd.Feed, Cmd.Done, s.cmd, s.input.contents + Concat(chunks)) == (p, rest)
    && |rest| <= |LastBuffer(s.input, chunks).contents| + |chunks[|chunks| - 1]|
  }

  lemma {:induction false} FirstPieceFed(s: Session, chunks: seq<seq<byte>>, p: Cmd.Prawtos, rest: seq<byte>)
    returns (s': Session)
    requires s.input.capacity == BUFFER_SIZE && Completes(s, chunks, p, rest) && |chunks| > 1
    ensures s' == CmdFed(s, chunks[0]) == s.(cmd := s'.cmd, input := Empty(BUFFER_SIZE))
    ensures !Cmd.Done(s'.cmd) && !Cmd.Overran(s'.cmd) && Completes(s', chunks[1..], p, rest)
  {
    var q := FirstPieceLeavesMore(Cmd.Feed, Cmd.Done, s.cmd, s.input.contents, chunks, p, rest);
    if Cmd.Overran(q) {
      Cmd.OverranStays(q, Concat(chunks[1..]));
    }
    CmdFedWhole(s, chunks[0], q);
    s' := s.(cmd := q, input := Empty(BUFFER_SIZE));
    assert s'.input.contents + Concat(chunks[1..]) == Concat(chunks[1..]);
  }

  /** All pieces but the last only move the parser on. */
  lemma {:induction false} CommandFirstPiece(w: World, id: nat, chunks: seq<seq<byte>>, env: Env,
                                             p: Cmd.Prawtos, rest: seq<byte>) returns (s': Session)
    requires AwaitsCommand(w, id, env) && Completes(w.sessions[id], chunks, p, rest) && |chunks| > 1
    ensures Enabled(w, Readable(id, Got(chunks[0]), env))
    ensures var w' := w.(sessions := w.sessions[id := s']);
            Step(w, Readable(id, Got(chunks[0]), env)) == Running(w', []) && AwaitsCommand(w', id, env)
    ensures Completes(s', chunks[1..], p, rest)
    ensures Completed(s', chunks[1..], p, rest) == Completed(w.sessions[id], chunks, p, rest)
  {
    s' := FirstPieceFed(w.sessions[id], chunks, p, rest);
    CommandPiece(w, id, chunks[0], env, s');
  }

  lemma {:induction false} CommandInOnePiece(w: World, id: nat, chunks: seq<seq<byte>>, env: Env,
                                             p: Cmd.Prawtos, rest: seq<byte>, t: Session)
    requires AwaitsCommand(w, id, env) && Completes(w.sessions[id], chunks, p, rest) && |chunks| == 1
    requires t == Completed(w.sessions[id], chunks, p, rest)
    ensures ValidRun(w, Deliver(id, chunks, env))
    ensures Exec(w, Deliver(id, chunks, env)) == Settle(w, id, Jumped(CmdDone(t, id, w.users, env)))
  {
    var s, e := w.sessions[id], Readable(id, Got(chunks[0]), env);
    assert Concat(chunks) == chunks[0] + [] == chunks[0];
    assert CmdFed(s, chunks[0]) == t;
    CommandLastPiece(w, id, chunks[0], env, t);
    assert Deliver(id, chunks, env) == [e];
    LastEvent(w, e);
  }

  /** The session with its command complete, before it is executed. */
  function Completed(s: Session, chunks: seq<seq<byte>>, p: Cmd.Prawtos, rest: seq<byte>): Session
    requires Completes(s, chunks, p, rest)
  {
    s.(cmd := p, input := Behind(s.input, chunks, rest))
  }

  /** Under any chunking, and with any bytes buffered before, a complete command
      is executed once, on its last piece; what follows it stays buffered. */
  lemma {:induction false} CommandArrives(w: World, id: nat, chunks: seq<seq<byte>>, env: Env,
                                          p: Cmd.Prawtos, rest: seq<byte>, t: Session)
    requires AwaitsCommand(w, id, env) && Completes(w.sessions[id], chunks, p, rest)
    requires t == Completed(w.sessions[id], chunks, p, rest)
    ensures ValidRun(w, Deliver(id, chunks, env))
    ensures Exec(w, Deliver(id, chunks, env)) == Settle(w, id, Jumped(CmdDone(t, id, w.users, env)))
    decreases |chunks|
  {
    if |chunks| == 1 {
      CommandInOnePiece(w, id, chunks, env, p, rest, t);
    } else {
      var s' := CommandFirstPiece(w, id, chunks, env, p, rest);
      var w' := w.(sessions := w.sessions[id := s']);
      CommandArrives(w', id, chunks[1..], env, p, rest, t);
      PrependEvent(w, Readable(id, Got(chunks[0]), env), w', Deliver(id, chunks[1..], env));
      SettleForgets(w, id, s', Jumped(CmdDone(t, id, w.users, env)));
    }
  }

  /** A field of 255 bytes. */
  predicate HasLongField(m: Cmd.Message) {
    m.User? && (|m.name| == 255 || |m.passwd| == 255)
  }

  lemma LongFieldsOverrun(p: Cmd.Prawtos, m: Cmd.Message)
    requires Cmd.WellFormed(p) && p.state == Cmd.Finished && Cmd.Decode(p) == m
    ensures Cmd.Overran(p) <==> HasLongField(m)
  {
    if p.kind == Cmd.USER {
      assert |p.uname[..p.ulen]| == p.ulen && |p.passwd[..p.plen]| == p.plen;
    }
  }

  /** The session's buffer and the pieces together are a message, which ends in
      the last piece, and `rest`. */
  predicate Sends(s: Session, chunks: seq<seq<byte>>, m: Cmd.Message, rest: seq<byte>) {
    && m.Valid() && !HasLongField(m) && Cmd.Fresh(s.cmd)
    && Pieces(s.input, chunks) && EndsInLast(chunks, rest)
    && s.input.contents + Concat(chunks) == Cmd.Encode(m) + rest
    && |rest| <= |LastBuffer(s.input, chunks).contents| + |chunks[|chunks| - 1]|
  }

  lemma {:induction false} MessageCompletes(s: Session, chunks: seq<seq<byte>>, m: Cmd.Message, rest: seq<byte>)
    returns (p: Cmd.Prawtos)
    requires Sends(s, chunks, m, rest)
    ensures Completes(s, chunks, p, rest) && Completed(s, chunks, p, rest).input.contents == rest
    ensures p.state == Cmd.Finished && Cmd.WellFormed(p) && Cmd.Decode(p) == m
  {
    Cmd.ParsesMessage(s.cmd, m, rest);
    p := Consume(Cmd.Feed, Cmd.Done, s.cmd, Cmd.Encode(m) + rest).0;
    LongFieldsOverrun(p, m);
    BehindHolds(s.input, chunks, rest, Cmd.Encode(m));
  }

  /** What the last piece leaves in the buffer is what follows the message. */
  lemma {:induction false} BehindHolds(q: Queue, chunks: seq<seq<byte>>, rest: seq<byte>, message: seq<byte>)
    requires chunks != [] && q.contents + Concat(chunks) == message + rest
    requires |rest| <= |LastBuffer(q, chunks).contents| + |chunks[|chunks| - 1]|
    ensures Behind(q, chunks, rest).contents == rest
  {
    var met, last := LastBuffer(q, chunks), chunks[|chunks| - 1];
    MeetsEnd(q.contents, chunks, met.contents);
    SameEnd(message + rest, met.contents + last, rest);
    TakesAllBut(met.Put(last), |rest|);
  }

  /** What the last piece makes of the buffer ends the buffer and all pieces. */
  lemma {:induction false} MeetsEnd(buffered: seq<byte>, chunks: seq<seq<byte>>, met: seq<byte>)
    requires chunks != [] && met == (if |chunks| == 1 then buffered else [])
    ensures var all, end := buffered + Concat(chunks), met + chunks[|chunks| - 1];
            |end| <= |all| && all[|all| - |end|..] == end
  {
    var last := chunks[|chunks| - 1];
    LastIsSuffix(chunks);
    if |chunks| == 1 {
      assert Concat(chunks) == last + [] == last;
    } else {
      var all, pieces := buffered + Concat(chunks), Concat(chunks);
      assert [] + last == last;
      assert all[|all| - |last|..] == pieces[|pieces| - |last|..];
    }
  }

  lemma TakesAllBut(q: Queue, n: nat)
    requires n <= |q.contents|
    ensures q.Take(|q.contents| - n).contents == q.contents[|q.contents| - n..]
  {
  }

  /** Two sequences with a common end that covers `rest`. */
  lemma SameEnd(all: seq<byte>, end: seq<byte>, rest: seq<byte>)
    requires |rest| <= |end| <= |all| && all[|all| - |end|..] == end && all[|all| - |rest|..] == rest
    ensures end[|end| - |rest|..] == rest
  {
    assert end[|end| - |rest|..] == all[|all| - |end|..][|end| - |rest|..] == all[|all| - |rest|..];
  }

  lemma {:induction false} LastIsSuffix(chunks: seq<seq<byte>>)
    requires chunks != []
    ensures var all, last := Concat(chunks), chunks[|chunks| - 1];
            |last| <= |all| && all[|all| - |last|..] == last
  {
    if |chunks| == 1 {
      assert Concat(chunks) == chunks[0] + [];
    } else {
      LastIsSuffix(chunks[1..]);
    }
  }

  lemma LastEvent(w: World, e: Event)
    requires Enabled(w, e)
    ensures ValidRun(w, [e]) && Exec(w, [e]) == Step(w, e)
  {
    var run := [e];
    assert run[1..] == [];
    if Step(w, e).Running? {
      assert Step(w, e).log + [] == Step(w, e).log;
    }
  }

  lemma SettleLive(w: World, id: nat, o: Outcome)
    requires o.Next? && IsLive(o.next)
    ensures var r := Settle(w, id, Jumped(o));
            && r.Running? && r.log == o.log && r.world.users == o.users && id in r.world.sessions
            && r.world.sessions[id] == Jump(o.session, o.next)
            && Jump(o.session, o.next).output == o.session.output && Jump(o.session, o.next).current == o.next
  {
  }

  lemma SettleForgets(w: World, id: nat, s: Session, o: Outcome)
    ensures Settle(w.(sessions := w.sessions[id := s]), id, o) == Settle(w, id, o)
  {
    assert w.sessions[id := s] - {id} == w.sessions - {id};
    if o.Next? {
      assert w.sessions[id := s][id := o.session] == w.sessions[id := o.session];
    }
  }

  /** The session is before or inside its login request. */
  predicate AwaitsLogin(w: World, id: nat, env: Env) {
    && id in w.sessions && HandleFirst(w.sessions[id]).current == AuthRead && w.sessions[id].interest.read
    && w.sessions[id].input.Valid() && w.sessions[id].input.capacity == BUFFER_SIZE && Lists(env, w.users)
  }

  lemma LoginPiece(w: World, id: nat, bytes: seq<byte>, env: Env, t: Session)
    requires AwaitsLogin(w, id, env) && 0 < |bytes| <= w.sessions[id].input.Room()
    requires t == AuthFed(HandleFirst(w.sessions[id]), bytes) && !Auth.Done(t.auth) && !Auth.Overran(t.auth)
    ensures Enabled(w, Readable(id, Got(bytes), env))
    ensures Step(w, Readable(id, Got(bytes), env)) == Running(w.(sessions := w.sessions[id := t]), [])
  {
    StepStays(w, id, Got(bytes), env, t);
  }

  lemma LoginLastPiece(w: World, id: nat, bytes: seq<byte>, env: Env, t: Session)
    requires AwaitsLogin(w, id, env) && 0 < |bytes| <= w.sessions[id].input.Room()
    requires t == AuthFed(HandleFirst(w.sessions[id]), bytes) && Auth.Done(t.auth) && !Auth.Overran(t.auth)
    ensures Enabled(w, Readable(id, Got(bytes), env))
    ensures Step(w, Readable(id, Got(bytes), env)) == Settle(w, id, Jumped(AuthDone(t, id, w.users)))
  {
  }

  lemma AuthFedWhole(s: Session, bytes: seq<byte>, q: Auth.Auth)
    requires s.input.capacity == BUFFER_SIZE
    requires Consume(Auth.Feed, Auth.Done, s.auth, s.input.contents + bytes) == (q, [])
    ensures AuthFed(s, bytes) == s.(auth := q, input := Empty(BUFFER_SIZE))
  {
  }

  /** The bytes `chunks` that follow the buffer complete `p` in the last piece. */
  predicate CompletesLogin(s: Session, chunks: seq<seq<byte>>, p: Auth.Auth, rest: seq<byte>) {
    && Pieces(s.input, chunks) && EndsInLast(chunks, rest) && Auth.Done(p) && !Auth.Overran(p)
    && Consume(Auth.Feed, Auth.Done, s.auth, s.input.contents + Concat(chunks)) == (p, rest)
    && |rest| <= |LastBuffer(s.input, chunks).contents| + |chunks[|chunks| - 1]|
  }

  /** The session with its login complete, before it is checked. */
  function LoginReady(s: Session, chunks: seq<seq<byte>>, p: Auth.Auth, rest: seq<byte>): Session
    requires CompletesLogin(s, chunks, p, rest)
  {
    s.(auth := p, input := Behind(s.input, chunks, rest))
  }

  lemma {:induction false} FirstLoginFed(s: Session, chunks: seq<seq<byte>>, p: Auth.Auth, rest: seq<byte>)
    returns (s': Session)
    requires s.input.capacity == BUFFER_SIZE && CompletesLogin(s, chunks, p, rest) && |chunks| > 1
    ensures s' == AuthFed(s, chunks[0]) == s.(auth := s'.auth, input := Empty(BUFFER_SIZE))
    ensures !Auth.Done(s'.auth) && !Auth.Overran(s'.auth) && CompletesLogin(s', chunks[1..], p, rest)
  {
    var q := FirstPieceLeavesMore(Auth.Feed, Auth.Done, s.auth, s.input.contents, chunks, p, rest);
    if Auth.Overran(q) {
      Auth.OverranStays(q, Concat(chunks[1..]));
    }
    AuthFedWhole(s, chunks[0], q);
    s' := s.(auth := q, input := Empty(BUFFER_SIZE));
    assert s'.input.contents + Concat(chunks[1..]) == Concat(chunks[1..]);
  }

  lemma {:induction false} LoginFirstPiece(w: World, id: nat, chunks: seq<seq<byte>>, env: Env,
                                           p: Auth.Auth, rest: seq<byte>) returns (s': Session)
    requires AwaitsLogin(w, id, env) && CompletesLogin(HandleFirst(w.sessions[id]), chunks, p, rest) && |chunks| > 1
    ensures Enabled(w, Readable(id, Got(chunks[0]), env))
    ensures var w' := w.(sessions := w.sessions[id := s']);
            Step(w, Readable(id, Got(chunks[0]), env)) == Running(w', []) && AwaitsLogin(w', id, env)
    ensures s' == HandleFirst(s') && CompletesLogin(s', chunks[1..], p, rest)
    ensures LoginReady(s', chunks[1..], p, rest) == LoginReady(HandleFirst(w.sessions[id]), chunks, p, rest)
  {
    s' := FirstLoginFed(HandleFirst(w.sessions[id]), chunks, p, rest);
    LoginPiece(w, id, chunks[0], env, s');
  }

  lemma {:induction false} LoginInOnePiece(w: World, id: nat, chunks: seq<seq<byte>>, env: Env,
                                           p: Auth.Auth, rest: seq<byte>, t: Session)
    requires AwaitsLogin(w, id, env) && CompletesLogin(HandleFirst(w.sessions[id]), chunks, p, rest) && |chunks| == 1
    requires t == LoginReady(HandleFirst(w.sessions[id]), chunks, p, rest)
    ensures ValidRun(w, Deliver(id, chunks, env))
    ensures Exec(w, Deliver(id, chunks, env)) == Settle(w, id, Jumped(AuthDone(t, id, w.users)))
  {
    var s, e := HandleFirst(w.sessions[id]), Readable(id, Got(chunks[0]), env);
    assert Concat(chunks) == chunks[0] + [] == chunks[0];
    assert AuthFed(s, chunks[0]) == t;
    LoginLastPiece(w, id, chunks[0], env, t);
    assert Deliver(id, chunks, env) == [e];
    LastEvent(w, e);
  }

  /** Under any chunking, a complete login request is checked once, on its last
      piece; what follows it stays buffered. */
  lemma {:induction false} LoginArrives(w: World, id: nat, chunks: seq<seq<byte>>, env: Env,
                                        p: Auth.Auth, rest: seq<byte>, t: Session)
    requires AwaitsLogin(w, id, env) && CompletesLogin(HandleFirst(w.sessions[id]), chunks, p, rest)
    requires t == LoginReady(HandleFirst(w.sessions[id]), chunks, p, rest)
    ensures ValidRun(w, Deliver(id, chunks, env))
    ensures Exec(w, Deliver(id, chunks, env)) == Settle(w, id, Jumped(AuthDone(t, id, w.users)))
    decreases |chunks|
  {
    if |chunks| == 1 {
      LoginInOnePiece(w, id, chunks, env, p, rest, t);
    } else {
      var s' := LoginFirstPiece(w, id, chunks, env, p, rest);
      var w' := w.(sessions := w.sessions[id := s']);
      LoginArrives(w', id, chunks[1..], env, p, rest, t);
      PrependEvent(w, Readable(id, Got(chunks[0]), env), w', Deliver(id, chunks[1..], env));
      SettleForgets(w, id, s', Jumped(AuthDone(t, id, w.users)));
    }
  }

  // ---------------------------------------------------------------------------
  // Create, then log in

  /** A string the client can enter, short enough for a field with its NUL and the
      terminator that the parser adds. */
  predicate Short(text: seq<byte>) {
    Typed(text) && |text| < CREDENTIALS_SIZE - 1
  }

  /** The message of add_new_user with the admin flag set. */
  function CreateAdmin(name: seq<byte>, secret: seq<byte>): (m: Cmd.Message)
    requires Short(name) && Short(secret)
    ensures m.Valid()
  {
    Cmd.User(Cmd.CREATE, 1, name + [0], secret + [0])
  }

  lemma BlockString(block: Field, text: seq<byte>)
    requires Short(text) && block[..|text| + 1] == text + [0] && Cmd.ZeroFrom(block, |text| + 1)
    ensures Terminated(block) && CStr(block) == text
  {
    assert block == text + [0] + block[|text| + 1..];
    CStrOfTerminated(text, block[|text| + 1..]);
    assert block[|text|] == 0;
  }

  /** The account that a create-admin message stands for. */
  function Admin(name: seq<byte>, secret: seq<byte>): Account {
    Account(name, |name| + 1, secret, |secret| + 1, true)
  }

  lemma CreateAdminHandled(p: Cmd.Prawtos, users: seq<Account>, name: seq<byte>, secret: seq<byte>)
    requires Short(name) && Short(secret) && !Present(users, name)
    requires p.state == Cmd.Finished && Cmd.WellFormed(p) && Cmd.Decode(p) == CreateAdmin(name, secret)
    ensures p.kind == Cmd.USER
    ensures HandleUser(p, users) ==
            if ScanDefined(users, name) then Handled(users + [Admin(name, secret)], Created(name)) else Overrun
  {
    BlockString(p.uname, name);
    BlockString(p.passwd, secret);
  }

  lemma CreateAdminExecutes(s: Session, id: nat, users: seq<Account>, env: Env, name: seq<byte>, secret: seq<byte>)
    requires Short(name) && Short(secret) && !Present(users, name)
    requires s.cmd.state == Cmd.Finished && Cmd.WellFormed(s.cmd) && Cmd.Decode(s.cmd) == CreateAdmin(name, secret)
    requires s.output == Empty(BUFFER_SIZE)
    ensures var o := CmdDone(s, id, users, env);
            if !ScanDefined(users, name) then o.Undefined?
            else o.Next? && o.next == CmdWrite && o.log == [Executed(id, Created(name))]
                 && o.users == users + [Admin(name, secret)] && o.session.output.contents == [SUCCESS]
                 && o.session.input == s.input
  {
    CreateAdminHandled(s.cmd, users, name, secret);
  }

  predicate Creates(s: Session, chunks: seq<seq<byte>>, name: seq<byte>, secret: seq<byte>, rest: seq<byte>) {
    Short(name) && Short(secret) && Sends(s, chunks, CreateAdmin(name, secret), rest)
  }

  /** The create-admin message of an absent name, under any chunking and with any
      bytes around it: exactly one account is added, and its credentials are
      accepted from then on. Only a registry in which the search for the name
      already runs past a block makes it undefined. */
  lemma CreateAdminTakesEffect(w: World, id: nat, chunks: seq<seq<byte>>, env: Env,
                               name: seq<byte>, secret: seq<byte>, rest: seq<byte>)
    requires WorldInv(w) && AwaitsCommand(w, id, env) && !Present(w.users, name)
    requires Creates(w.sessions[id], chunks, name, secret, rest)
    ensures ValidRun(w, Deliver(id, chunks, env))
    ensures var r := Exec(w, Deliver(id, chunks, env));
            if !ScanDefined(w.users, name) then r.Faulted?
            else r.Running? && r.log == [Executed(id, Created(name))]
                 && r.world.users == w.users + [Admin(name, secret)] && Honours(r.world.users, name, secret)
                 && id in r.world.sessions && r.world.sessions[id].output.contents == [SUCCESS]
                 && r.world.sessions[id].input.contents == rest
  {
    var s := w.sessions[id];
    var p := MessageCompletes(s, chunks, CreateAdmin(name, secret), rest);
    var t := Completed(s, chunks, p, rest);
    CommandArrives(w, id, chunks, env, p, rest, t);
    CreateAdminSettles(w, id, t, env, name, secret);
  }

  lemma CreateAdminSettles(w: World, id: nat, t: Session, env: Env, name: seq<byte>, secret: seq<byte>)
    requires Short(name) && Short(secret) && !Present(w.users, name) && t.output == Empty(BUFFER_SIZE)
    requires t.cmd.state == Cmd.Finished && Cmd.WellFormed(t.cmd) && Cmd.Decode(t.cmd) == CreateAdmin(name, secret)
    ensures var r := Settle(w, id, Jumped(CmdDone(t, id, w.users, env)));
            if !ScanDefined(w.users, name) then r.Faulted?
            else r.Running? && r.log == [Executed(id, Created(name))]
                 && r.world.users == w.users + [Admin(name, secret)] && Honours(r.world.users, name, secret)
                 && id in r.world.sessions && r.world.sessions[id].output.contents == [SUCCESS]
                 && r.world.sessions[id].input == t.input
  {
    CreateAdminExecutes(t, id, w.users, env, name, secret);
    if ScanDefined(w.users, name) {
      SettleLive(w, id, CmdDone(t, id, w.users, env));
      AddedIsHonoured(w.users, Admin(name, secret));
    }
  }

  lemma LoginChecks(s: Session, id: nat, users: seq<Account>, name: seq<byte>, secret: seq<byte>)
    requires Typed(name) && Typed(secret) && s.auth.state == Auth.Finished && s.output == Empty(BUFFER_SIZE)
    requires Holds(s.auth.uname, name) && Holds(s.auth.passwd, secret)
    ensures var o, ok := AuthDone(s, id, users), Accepts(users, name, secret);
            if !CheckDefined(users, name, secret) then o.Undefined?
            else o.Next? && o.next == AuthWrite && o.users == users && o.log == [Checked(id, ok)]
                 && o.session.output.contents == [1, if ok then AUTH_SUCCESS else AUTH_BAD_CREDENTIALS]
                 && o.session.input == s.input
  {
    FieldString(s.auth.uname, name);
    FieldString(s.auth.passwd, secret);
  }

  /** The session has sent nothing yet. */
  predicate JustAccepted(w: World, id: nat, env: Env) {
    id in w.sessions && w.sessions[id].current == Unstarted && Lists(env, w.users)
  }

  /** The pieces are a login message, which ends in the last piece, and `rest`. */
  predicate SendsLogin(chunks: seq<seq<byte>>, name: seq<byte>, secret: seq<byte>, rest: seq<byte>) {
    && Typed(name) && Typed(secret) && Pieces(Empty(BUFFER_SIZE), chunks) && EndsInLast(chunks, rest)
    && Concat(chunks) == Auth.Encode(name, secret) + rest
    && (|rest| <= |chunks[|chunks| - 1]|)
  }

  lemma {:induction false} LoginCompletes(s: Session, chunks: seq<seq<byte>>, name: seq<byte>, secret: seq<byte>,
                                          rest: seq<byte>) returns (p: Auth.Auth)
    requires SendsLogin(chunks, name, secret, rest) && s.auth == Auth.INITIAL && s.input == Empty(BUFFER_SIZE)
    ensures CompletesLogin(s, chunks, p, rest) && LoginReady(s, chunks, p, rest).input.contents == rest
    ensures p.state == Auth.Finished && Holds(p.uname, name) && Holds(p.passwd, secret)
  {
    Auth.ParsesEncoding(name, secret, rest);
    p := Consume(Auth.Feed, Auth.Done, s.auth, Auth.Encode(name, secret) + rest).0;
    assert [] + Concat(chunks) == Concat(chunks);
    BehindHolds(s.input, chunks, rest, Auth.Encode(name, secret));
  }

  /** The login message, under any chunking and with any bytes behind it, is
      answered with success exactly when the registry accepts the credentials, and
      undefined exactly when one of the comparisons runs past a block. */
  lemma LoginIsAccepted(w: World, id: nat, chunks: seq<seq<byte>>, env: Env,
                        name: seq<byte>, secret: seq<byte>, rest: seq<byte>)
    requires WorldInv(w) && JustAccepted(w, id, env) && SendsLogin(chunks, name, secret, rest)
    ensures ValidRun(w, Deliver(id, chunks, env))
    ensures var r, ok := Exec(w, Deliver(id, chunks, env)), Accepts(w.users, name, secret);
            if !CheckDefined(w.users, name, secret) then r.Faulted?
            else r.Running? && r.log == [Checked(id, ok)]
                 && id in r.world.sessions && r.world.sessions[id].current == AuthWrite
                 && r.world.sessions[id].output.contents == [1, if ok then 0 else 3]
                 && r.world.sessions[id].input.contents == rest
  {
    var s := HandleFirst(w.sessions[id]);
    var p := LoginCompletes(s, chunks, name, secret, rest);
    var t := LoginReady(s, chunks, p, rest);
    LoginArrives(w, id, chunks, env, p, rest, t);
    LoginSettles(w, id, t, name, secret);
  }

  lemma LoginSettles(w: World, id: nat, t: Session, name: seq<byte>, secret: seq<byte>)
    requires Typed(name) && Typed(secret) && t.auth.state == Auth.Finished && t.output == Empty(BUFFER_SIZE)
    requires Holds(t.auth.uname, name) && Holds(t.auth.passwd, secret)
    ensures var r, ok := Settle(w, id, Jumped(AuthDone(t, id, w.users))), Accepts(w.users, name, secret);
            if !CheckDefined(w.users, name, secret) then r.Faulted?
            else r.Running? && r.log == [Checked(id, ok)]
                 && id in r.world.sessions && r.world.sessions[id].current == AuthWrite
                 && r.world.sessions[id].output.contents == [1, if ok then AUTH_SUCCESS else AUTH_BAD_CREDENTIALS]
                 && r.world.sessions[id].input == t.input
  {
    LoginChecks(t, id, w.users, name, secret);
    if CheckDefined(w.users, name, secret) {
      SettleLive(w, id, AuthDone(t, id, w.users));
    }
  }

  /** Once the create-admin message of an absent name is executed, the login
      message of that name and password is accepted, after any run of any
      sessions in which no delete or edit of that name succeeded. */
  lemma CreateThenLogin(w: World, id: nat, chunks: seq<seq<byte>>, env: Env,
                        name: seq<byte>, secret: seq<byte>, rest: seq<byte>,
                        run: seq<Event>, loginId: nat, loginChunks: seq<seq<byte>>, loginEnv: Env, behind: seq<byte>)
    requires WorldInv(w) && AwaitsCommand(w, id, env) && !Present(w.users, name)
    requires Creates(w.sessions[id], chunks, name, secret, rest)
    requires SendsLogin(loginChunks, name, secret, behind)
    ensures ValidRun(w, Deliver(id, chunks, env))
    ensures Exec(w, Deliver(id, chunks, env)).Running? <==> ScanDefined(w.users, name)
    ensures ScanDefined(w.users, name) ==>
              var created := Exec(w, Deliver(id, chunks, env)).world;
              ValidRun(created, run) && Exec(created, run).Running? && Untouched(Exec(created, run).log, name) ==>
                var later := Exec(created, run).world;
                JustAccepted(later, loginId, loginEnv) ==>
                  && ValidRun(later, Deliver(loginId, loginChunks, loginEnv))
                  && var r := Exec(later, Deliver(loginId, loginChunks, loginEnv));
                     r.Running? && r.log == [Checked(loginId, true)]
  {
    CreateAdminTakesEffect(w, id, chunks, env, name, secret, rest);
    if ScanDefined(w.users, name) {
      RunKeepsInv(w, Deliver(id, chunks, env));
      var created := Exec(w, Deliver(id, chunks, env)).world;
      if ValidRun(created, run) && Exec(created, run).Running? && Untouched(Exec(created, run).log, name) {
        LoginSurvives(created, run, name, secret);
        RunKeepsInv(created, run);
        var later := Exec(created, run).world;
        if JustAccepted(later, loginId, loginEnv) {
          LoginIsAccepted(later, loginId, loginChunks, loginEnv, name, secret, behind);
        }
      }
    }
  }
}
