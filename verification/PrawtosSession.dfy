/** Admin sessions of the prawtos protocol: the handlers under src/prawtos driven
    by the table-driven machine of src/stm/stm.c, over the shared user registry. */
module PrawtosSession {
  import opened Bytes
  import opened Io
  import opened LinearBuffer
  import opened Feeding
  import opened Accounts
  import Auth = AuthParser
  import Cmd = PrawtosParser

  const BUFFER_SIZE: nat := 4096

  const AUTH_SUCCESS: byte := 0
  const AUTH_BAD_CREDENTIALS: byte := 3

  const SUCCESS: byte := 0
  const CMD_NOT_SUPPORTED: byte := 2
  const USER_CREDENTIA: byte := 5

  /** The rows of prawtos_init_states, and the machine before its first event. */
  datatype State = Unstarted | AuthRead | AuthWrite | CmdRead | CmdWrite | Finished | Errored

  datatype Session = Session(current: State, auth: Auth.Auth, authStatus: byte, cmd: Cmd.Prawtos, status: byte,
                             input: Queue, output: Queue, interest: Ops)

  /** What handlers read from the rest of the process. The listing is the reply
      of get_all_users, whose filler bytes are whatever malloc returned. */
  datatype Env = Env(bytesSent: nat, total: nat, concurrent: nat, listing: seq<byte>)

  predicate Lists(env: Env, users: seq<Account>) {
    ListingDefined(users) ==> IsListing(env.listing, users)
  }

  datatype Change = NoChange | Created(key: seq<byte>) | Deleted(key: seq<byte>) | Edited(key: seq<byte>)

  /** Observable acts: check_credentials answered, cmd_process ran. */
  datatype Action = Checked(id: nat, ok: bool) | Executed(id: nat, change: Change)

  /** A handler's answer, with the registry and session it leaves; Undefined is
      where the C code has no defined behaviour. */
  datatype Outcome = Next(next: State, session: Session, users: seq<Account>, log: seq<Action>) | Undefined

  // ---------------------------------------------------------------------------
  // auth_prawtos.c

  function CheckStatus(a: Auth.Auth, users: seq<Account>): byte {
    if Accepts(users, CStr(a.uname), CStr(a.passwd)) then AUTH_SUCCESS else AUTH_BAD_CREDENTIALS
  }

  function AuthProcess(s: Session, id: nat, users: seq<Account>): Outcome {
    if !CheckDefined(users, CStr(s.auth.uname), CStr(s.auth.passwd)) then Undefined
    else
      var status := CheckStatus(s.auth, users);
      var log := [Checked(id, status == AUTH_SUCCESS)];
      if s.output.Room() < 2 then Next(Errored, s.(authStatus := status), users, log)
      else Next(AuthWrite, s.(authStatus := status, output := s.output.Put([1, status])), users, log)
  }

  /** Buffer the bytes received and let the parser consume what it can. */
  function AuthTake(p: Auth.Auth, q: Queue, bytes: seq<byte>): (Auth.Auth, Queue) {
    var text := q.contents + bytes;
    var (p', rest) := Consume(Auth.Feed, Auth.Done, p, text);
    (p', q.Put(bytes).Take(|text| - |rest|))
  }

  function AuthFed(s: Session, bytes: seq<byte>): Session {
    var (p, q) := AuthTake(s.auth, s.input, bytes);
    s.(auth := p, input := q)
  }

  /** The parser is done: turn to writing, check, and give up if it failed. */
  function AuthDone(t: Session, id: nat, users: seq<Account>): Outcome {
    var o := AuthProcess(t.(interest := WRITE_ONLY), id, users);
    if o.Next? && Auth.IsError(t.auth.state) then o.(next := Errored) else o
  }

  function OnAuthRead(s: Session, id: nat, users: seq<Account>, r: RecvResult): Outcome {
    if r.RecvFailed? || r.bytes == [] then Next(Errored, s, users, [])
    else
      var t := AuthFed(s, r.bytes);
      if Auth.Overran(t.auth) then Undefined
      else if !Auth.Done(t.auth) then Next(AuthRead, t, users, []) else AuthDone(t, id, users)
  }

  /** The whole reply went out: wait for the next command. */
  function Replied(s: Session, n: nat, waiting: State): (State, Session)
    requires n <= |s.output.contents|
  {
    var t := s.(output := s.output.Take(n));
    if t.output.contents == [] then (CmdRead, t.(interest := READ_ONLY)) else (waiting, t)
  }

  function OnAuthWrite(s: Session, users: seq<Account>, r: SendResult): Outcome
    requires r.Sent? ==> r.n <= |s.output.contents|
  {
    if s.authStatus != AUTH_SUCCESS then Next(Errored, s, users, [])
    else if r.Sent? && r.n > 0 then
      var (next, t) := Replied(s, r.n, AuthWrite);
      Next(next, t, users, [])
    else Next(AuthWrite, s, users, [])
  }

  // ---------------------------------------------------------------------------
  // cmd_prawtos.c

  function BigEndian2(n: nat): seq<byte> {
    [n / 0x100 % 0x100, n % 0x100]
  }

  function BigEndian4(n: nat): seq<byte> {
    [n / 0x100_0000 % 0x100, n / 0x1_0000 % 0x100, n / 0x100 % 0x100, n % 0x100]
  }

  /** The argument bytes of the four entries of get_handlers. */
  function GetArgs(cmd: byte, env: Env): seq<byte>
    requires cmd < 4
  {
    if cmd == 0 then [4] + BigEndian4(env.bytesSent)
    else if cmd == 1 then [2] + BigEndian2(env.total)
    else if cmd == 2 then [2] + BigEndian2(env.concurrent)
    else env.listing
  }

  /** Length and first byte of those arguments; a listing starts with the size of
      the first name block. */
  function ArgsSize(cmd: byte, users: seq<Account>): nat {
    if cmd == 0 then 5 else if cmd < 3 then 3 else ListingSize(users)
  }

  function FirstArg(cmd: byte, users: seq<Account>): nat {
    if cmd == 0 then 4 else if cmd < 3 then 2 else if users == [] then 0 else users[0].ulen
  }

  /** The handler exists, get_all_users stays inside its block and finds a user,
      and the room test of get_marshal fails or the whole reply fits. */
  predicate GetDefined(room: int, cmd: byte, users: seq<Account>) {
    && cmd < 4 && (cmd == 3 ==> users != [] && ListingDefined(users))
    && (room <= FirstArg(cmd, users) || 3 + ArgsSize(cmd, users) <= room)
  }

  function ProcessGet(s: Session, id: nat, users: seq<Account>, env: Env): Outcome {
    if !GetDefined(s.output.Room(), s.cmd.getCmd, users) then Undefined
    else if s.output.Room() <= FirstArg(s.cmd.getCmd, users) then
      Next(Errored, s.(status := SUCCESS), users, [Executed(id, NoChange)])
    else
      var nargs: byte := if s.cmd.getCmd == 3 then |users| % 0x100 else 1;
      Next(CmdWrite, s.(status := SUCCESS,
                        output := s.output.Put([SUCCESS, s.cmd.getCmd, nargs] + GetArgs(s.cmd.getCmd, env))),
           users, [Executed(id, NoChange)])
  }

  /** What an entry of user_handlers does to the registry. A create copies both
      blocks as they are, with or without NUL; an edit copies up to the NUL, into a
      block of the length received. */
  datatype Handled = Handled(users: seq<Account>, change: Change) | Overrun

  function HandleUser(p: Cmd.Prawtos, users: seq<Account>): Handled {
    var name, secret := CStr(p.uname), CStr(p.passwd);
    if p.userCmd > 2 || !ScanDefined(users, name) then Overrun
    else if p.userCmd == Cmd.CREATE then
      if Present(users, name) then Handled(users, NoChange)
      else Handled(Add(users, Account(name, p.ulen, secret, p.plen, p.admin != 0)), Created(name))
    else if p.userCmd == Cmd.DELETE then
      Handled(Delete(users, name), if Present(users, name) then Deleted(name) else NoChange)
    else if !Present(users, name) then Handled(users, NoChange)
    else if |secret| < p.plen then Handled(Edit(users, name, secret, p.plen), Edited(name))
    else Overrun
  }

  function ReplyStatus(s: Session, status: byte, id: nat, users: seq<Account>, change: Change): Outcome {
    if s.output.Room() < 1 then Next(Errored, s.(status := status), users, [Executed(id, change)])
    else Next(CmdWrite, s.(status := status, output := s.output.Put([status])), users, [Executed(id, change)])
  }

  function ProcessUser(s: Session, id: nat, users: seq<Account>): Outcome {
    var h := HandleUser(s.cmd, users);
    if h.Overrun? then Undefined
    else ReplyStatus(s, if h.change.NoChange? then USER_CREDENTIA else SUCCESS, id, h.users, h.change)
  }

  function CmdProcess(s: Session, id: nat, users: seq<Account>, env: Env): Outcome {
    if s.cmd.kind == Cmd.GET then ProcessGet(s, id, users, env)
    else if s.cmd.kind == Cmd.USER then ProcessUser(s, id, users)
    else if s.cmd.kind == Cmd.QUIT then ReplyStatus(s, SUCCESS, id, users, NoChange)
    else Next(Errored, s, users, [Executed(id, NoChange)])
  }

  function CmdTake(p: Cmd.Prawtos, q: Queue, bytes: seq<byte>): (Cmd.Prawtos, Queue) {
    var text := q.contents + bytes;
    var (p', rest) := Consume(Cmd.Feed, Cmd.Done, p, text);
    (p', q.Put(bytes).Take(|text| - |rest|))
  }

  function CmdFed(s: Session, bytes: seq<byte>): Session {
    var (p, q) := CmdTake(s.cmd, s.input, bytes);
    s.(cmd := p, input := q)
  }

  /** The parser is done: turn to writing, execute, and give up if it failed. */
  function CmdDone(t: Session, id: nat, users: seq<Account>, env: Env): Outcome {
    var o := CmdProcess(t.(interest := WRITE_ONLY), id, users, env);
    if o.Next? && Cmd.IsError(t.cmd.state) then o.(next := Errored) else o
  }

  function OnCmdRead(s: Session, id: nat, users: seq<Account>, r: RecvResult, env: Env): Outcome {
    if r.RecvFailed? || r.bytes == [] then Next(Errored, s, users, [])
    else
      var t := CmdFed(s, r.bytes);
      if Cmd.Overran(t.cmd) then Undefined
      else if !Cmd.Done(t.cmd) then Next(CmdRead, t, users, []) else CmdDone(t, id, users, env)
  }

  function OnCmdWrite(s: Session, users: seq<Account>, r: SendResult): Outcome
    requires r.Sent? ==> r.n <= |s.output.contents|
  {
    if s.status == CMD_NOT_SUPPORTED then Next(Errored, s, users, [])
    else if r.Sent? && r.n > 0 then
      if s.cmd.kind == Cmd.QUIT then Next(Finished, s, users, [])
      else
        var (next, t) := Replied(s, r.n, CmdWrite);
        Next(next, t, users, [])
    else Next(CmdWrite, s, users, [])
  }

  // ---------------------------------------------------------------------------
  // stm.c over the table of prawtos.c

  /** handle_first: the initial state and its arrival callback. */
  function HandleFirst(s: Session): Session {
    if s.current == Unstarted then s.(current := AuthRead, auth := Auth.INITIAL) else s
  }

  /** jump: arrival callbacks run only when the state changes. */
  function Jump(s: Session, next: State): Session {
    if s.current == next then s
    else if next == AuthRead then s.(current := next, auth := Auth.INITIAL)
    else if next == CmdRead then s.(current := next, cmd := Cmd.Initialised(s.cmd))
    else s.(current := next)
  }

  function Jumped(o: Outcome): Outcome {
    if o.Next? then o.(session := Jump(o.session, o.next)) else o
  }

  /** stm_handler_read and stm_handler_write call abort() without a handler. */
  predicate ReadAborts(s: Session) {
    HandleFirst(s).current != AuthRead && HandleFirst(s).current != CmdRead
  }

  predicate WriteAborts(s: Session) {
    HandleFirst(s).current != AuthWrite && HandleFirst(s).current != CmdWrite
  }

  /** The on_read_ready callback of the current state. */
  function OnRead(t: Session, id: nat, users: seq<Account>, r: RecvResult, env: Env): Outcome {
    if t.current == AuthRead then OnAuthRead(t, id, users, r) else OnCmdRead(t, id, users, r, env)
  }

  function StmRead(s: Session, id: nat, users: seq<Account>, r: RecvResult, env: Env): Outcome
    requires !ReadAborts(s)
  {
    Jumped(OnRead(HandleFirst(s), id, users, r, env))
  }

  function StmWrite(s: Session, users: seq<Account>, r: SendResult): Outcome
    requires !WriteAborts(s) && (r.Sent? ==> r.n <= |s.output.contents|)
  {
    var t := HandleFirst(s);
    Jumped(if t.current == AuthWrite then OnAuthWrite(t, users, r) else OnCmdWrite(t, users, r))
  }

  // ---------------------------------------------------------------------------
  // The server: any number of sessions, one registry

  datatype World = World(sessions: map<nat, Session>, users: seq<Account>, accepted: nat)

  datatype Event =
    | Accept
    | Readable(id: nat, recv: RecvResult, env: Env)
    | Writable(id: nat, send: SendResult)

  function NewSession(): Session {
    Session(Unstarted, Auth.INITIAL, 0,
            Cmd.Prawtos(Cmd.Type, 0, 0, 0, 0, 0, Zeroes(), 0, Zeroes(), 0, 0), 0,
            Empty(BUFFER_SIZE), Empty(BUFFER_SIZE), READ_ONLY)
  }

  predicate Enabled(w: World, e: Event) {
    match e
    case Accept => true
    case Readable(id, r, env) =>
      && id in w.sessions && w.sessions[id].interest.read
      && Lists(env, w.users)
      && (r.Got? ==> |r.bytes| <= w.sessions[id].input.Room())
    case Writable(id, r) =>
      && id in w.sessions && w.sessions[id].interest.write
      && (r.Sent? ==> r.n <= |w.sessions[id].output.contents|)
  }

  datatype Result = Running(world: World, log: seq<Action>) | Aborted | Faulted

  /** prawtos_read and prawtos_write: a finished session is unregistered and freed. */
  function Settle(w: World, id: nat, o: Outcome): Result {
    if o.Undefined? then Faulted
    else if o.next == Finished || o.next == Errored then
      Running(w.(sessions := w.sessions - {id}, users := o.users), o.log)
    else Running(w.(sessions := w.sessions[id := o.session], users := o.users), o.log)
  }

  function Step(w: World, e: Event): Result
    requires Enabled(w, e)
  {
    match e
    case Accept => Running(w.(sessions := w.sessions[w.accepted := NewSession()], accepted := w.accepted + 1), [])
    case Readable(id, r, env) =>
      if ReadAborts(w.sessions[id]) then Aborted
      else Settle(w, id, StmRead(w.sessions[id], id, w.users, r, env))
    case Writable(id, r) =>
      if WriteAborts(w.sessions[id]) then Aborted
      else Settle(w, id, StmWrite(w.sessions[id], w.users, r))
  }

  predicate ValidRun(w: World, run: seq<Event>)
    decreases |run|
  {
    run == [] ||
    (Enabled(w, run[0]) &&
     if Step(w, run[0]).Running? then ValidRun(Step(w, run[0]).world, run[1..]) else |run| == 1)
  }

  function Exec(w: World, run: seq<Event>): Result
    requires ValidRun(w, run)
    decreases |run|
  {
    if run == [] then Running(w, [])
    else
      var first := Step(w, run[0]);
      if !first.Running? then first
      else
        var rest := Exec(first.world, run[1..]);
        if rest.Running? then rest.(log := first.log + rest.log) else rest
  }
}
