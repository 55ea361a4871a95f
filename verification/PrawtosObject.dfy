/** struct prawtos and its handlers as mutable objects: parsers, buffers, status
    bytes and registry are updated in place, and every handler is proved to take
    the step that PrawtosSession defines. */
module PrawtosObject {
  import opened Bytes
  import opened Io
  import opened LinearBuffer
  import opened Feeding
  import opened Accounts
  import Spec = PrawtosSession
  import Auth = AuthParser
  import Cmd = PrawtosParser
  import Stm
  import M = PrawtosMachine
  import opened PrawtosSafety
  import UserList

  /** Receiving `bytes` and consuming `taken` of them is one step on values. */
  lemma CmdTakeIs(p0: Cmd.Prawtos, q: Queue, bytes: seq<byte>, p: Cmd.Prawtos, after: Queue, taken: nat)
    requires taken <= |q.contents + bytes| && after == q.Put(bytes).Take(taken)
    requires Consume(Cmd.Feed, Cmd.Done, p0, q.contents + bytes) == (p, after.contents)
    ensures Spec.CmdTake(p0, q, bytes) == (p, after)
  {
    TakeTwice(q.Put(bytes), taken, 0);
    assert taken == |q.contents + bytes| - |after.contents|;
  }

  lemma AuthTakeIs(p0: Auth.Auth, q: Queue, bytes: seq<byte>, p: Auth.Auth, after: Queue, taken: nat)
    requires taken <= |q.contents + bytes| && after == q.Put(bytes).Take(taken)
    requires Consume(Auth.Feed, Auth.Done, p0, q.contents + bytes) == (p, after.contents)
    ensures Spec.AuthTake(p0, q, bytes) == (p, after)
  {
    TakeTwice(q.Put(bytes), taken, 0);
    assert taken == |q.contents + bytes| - |after.contents|;
  }

  /** buffer_write_adv and auth_consume after a recv. */
  method TakeLogin(parser: Auth.Parser, b: Buffer, bytes: seq<byte>) returns (error: bool)
    requires b.Valid() && 0 < |bytes| <= b.View().Room()
    modifies parser, b, b.data
    ensures b.Valid() && (parser.View(), b.View()) == Spec.AuthTake(old(parser.View()), old(b.View()), bytes)
    ensures error <==> Auth.IsError(parser.state)
  {
    ghost var p, q := parser.View(), b.View();
    b.Fill(bytes);
    var st;
    ghost var taken;
    st, error, taken := parser.ConsumeFrom(b);
    AuthTakeIs(p, q, bytes, parser.View(), b.View(), taken);
  }

  /** buffer_write_adv and prawtos_consume after a recv. */
  method TakeCommand(parser: Cmd.Parser, b: Buffer, bytes: seq<byte>) returns (error: bool)
    requires b.Valid() && 0 < |bytes| <= b.View().Room()
    modifies parser, b, b.data
    ensures b.Valid() && (parser.View(), b.View()) == Spec.CmdTake(old(parser.View()), old(b.View()), bytes)
    ensures error <==> Cmd.IsError(parser.state)
  {
    ghost var p, q := parser.View(), b.View();
    b.Fill(bytes);
    var st;
    ghost var taken;
    st, error, taken := parser.ConsumeFrom(b);
    CmdTakeIs(p, q, bytes, parser.View(), b.View(), taken);
  }

  /** Strings that end inside the lengths received with them. */
  predicate StringsIn(p: Cmd.Prawtos) {
    |CStr(p.uname)| <= p.ulen && |CStr(p.passwd)| <= p.plen
  }

  /** The command that the bytes complete, if any, has such strings. */
  predicate WillFit(s: Spec.Session, recv: RecvResult) {
    s.current == Spec.CmdRead && recv.Got? ==>
      var p := Spec.CmdFed(s, recv.bytes).cmd; Cmd.Done(p) ==> StringsIn(p)
  }

  lemma InvariantFits(s: Spec.Session, recv: RecvResult)
    requires SessionInv(s)
    ensures WillFit(s, recv) && WillFit(Spec.HandleFirst(s), recv)
  {
    if s.current == Spec.CmdRead && recv.Got? {
      ConsumeKeepsWellFormed(s.cmd, s.input.contents + recv.bytes);
      var p := Spec.CmdFed(s, recv.bytes).cmd;
      if Cmd.Done(p) {
        StringsFit(p);
      }
    }
  }

  class AdminSession {
    const id: nat
    const registry: UserList.Registry
    const auth: Auth.Parser
    const cmd: Cmd.Parser
    const input: Buffer
    const output: Buffer
    const stm: Stm.StateMachine
    var authStatus: byte
    var status: byte
    var interest: Ops

    ghost predicate Valid()
      reads input, output
    {
      input != output && input.data != output.data && input.Valid() && output.Valid()
    }

    /** Session and registry are sound; the methods below keep that as it was. */
    ghost predicate Sound()
      reads input, output, registry, registry.nodes
    {
      Valid() && registry.Valid()
    }

    /** The engine runs the prawtos table, and its callbacks have alternated so far. */
    ghost predicate Driven()
      reads stm
    {
      stm.initial == 0 && stm.maxState == M.LAST_STATE && stm.View().Valid() && Stm.Alternates(stm.View())
    }

    ghost function View(): Spec.Session
      requires Valid()
      reads this, stm, auth, cmd, input, output, input.data, output.data
    {
      Spec.Session(M.StateOf(stm.current), auth.View(), authStatus, cmd.View(), status,
                   input.View(), output.View(), interest)
    }

    /** prawtos_arrival. */
    constructor (id: nat, registry: UserList.Registry)
      ensures Valid() && this.id == id && this.registry == registry
      ensures Driven() && stm.current == Stm.NotStarted && interest == READ_ONLY && Cmd.Fresh(cmd.View())
      ensures input.View() == output.View() == Empty(Spec.BUFFER_SIZE)
    {
      var rawA, rawB := new byte[Spec.BUFFER_SIZE], new byte[Spec.BUFFER_SIZE];
      var readBuffer := new Buffer(rawA);
      var writeBuffer := new Buffer(rawB);
      var authParser := new Auth.Parser();
      var cmdParser := new Cmd.Parser();
      var machine := new Stm.StateMachine(0, M.LAST_STATE);
      this.id, this.registry := id, registry;
      stm, auth, cmd, input, output := machine, authParser, cmdParser, readBuffer, writeBuffer;
      authStatus, status, interest := 0, 0, READ_ONLY;
    }

    /** auth_prawtos_process. */
    method AuthProcess() returns (next: Spec.State, ghost log: seq<Spec.Action>)
      requires Valid() && registry.Valid() && Spec.AuthProcess(View(), id, registry.users).Next?
      modifies this`authStatus, output, output.data
      ensures Valid() && next != Spec.Unstarted
      ensures Spec.Next(next, View(), registry.users, log) == Spec.AuthProcess(old(View()), id, registry.users)
    {
      var answer := registry.CheckCredentials(CStr(auth.uname), CStr(auth.passwd));
      var code := if answer == 0 then Spec.AUTH_SUCCESS else Spec.AUTH_BAD_CREDENTIALS;
      next := Spec.AuthWrite;
      var len := Auth.Marshal(output, code);
      if len == -1 {
        next := Spec.Errored;
      }
      authStatus := code;
      log := [Spec.Checked(id, code == Spec.AUTH_SUCCESS)];
    }

    /** Receive into the read buffer and let the login parser consume it. */
    method AuthFeed(bytes: seq<byte>) returns (error: bool)
      requires Valid() && |bytes| <= View().input.Room() && bytes != []
      modifies auth, input, input.data
      ensures Valid() && View() == Spec.AuthFed(old(View()), bytes)
      ensures error <==> Auth.IsError(auth.state)
    {
      error := TakeLogin(auth, input, bytes);
    }

    /** The login request is complete: answer it. */
    method AuthDone(error: bool) returns (next: Spec.State, ghost log: seq<Spec.Action>)
      requires Valid() && registry.Valid() && error == Auth.IsError(auth.state)
      requires Spec.AuthDone(View(), id, registry.users).Next?
      modifies this`authStatus, this`interest, output, output.data
      ensures Valid() && next != Spec.Unstarted
      ensures Spec.Next(next, View(), registry.users, log) == Spec.AuthDone(old(View()), id, registry.users)
    {
      interest := WRITE_ONLY;
      next, log := AuthProcess();
      if error {
        next := Spec.Errored;
      }
    }

    /** auth_prawtos_read. */
    method AuthRead(recv: RecvResult) returns (next: Spec.State, ghost log: seq<Spec.Action>)
      requires Valid() && registry.Valid() && (recv.Got? ==> |recv.bytes| <= View().input.Room())
      requires Spec.OnAuthRead(View(), id, registry.users, recv).Next?
      modifies this`authStatus, this`interest, auth, input, input.data, output, output.data
      ensures Valid() && next != Spec.Unstarted
      ensures Spec.Next(next, View(), registry.users, log) == Spec.OnAuthRead(old(View()), id, registry.users, recv)
    {
      if recv.RecvFailed? || recv.bytes == [] {
        return Spec.Errored, [];
      }
      next, log := Spec.AuthRead, [];
      var error := AuthFeed(recv.bytes);
      if Auth.IsDone(auth.state) {
        next, log := AuthDone(error);
      }
    }

    /** auth_prawtos_write. */
    method AuthWrite(send: SendResult) returns (next: Spec.State)
      requires Valid() && (send.Sent? ==> send.n <= |View().output.contents|)
      modifies this`interest, output, output.data
      ensures Valid()
      ensures forall users :: Spec.Next(next, View(), users, []) == Spec.OnAuthWrite(old(View()), users, send)
    {
      next := Spec.AuthWrite;
      if authStatus != Spec.AUTH_SUCCESS {
        next := Spec.Errored;
      } else if send.Sent? && send.n > 0 {
        output.ReadAdv(send.n);
        if !output.CanRead() {
          interest := READ_ONLY;
          next := Spec.CmdRead;
        }
      }
    }

    /** The arguments of one entry of get_handlers. The counters come with `env`;
        `seen` is `env` with the listing that get_all_users wrote. */
    method GetArgs(env: Spec.Env) returns (args: seq<byte>, ghost seen: Spec.Env)
      requires registry.Valid() && cmd.getCmd < 4 && Accounts.Valid(registry.users)
      requires cmd.getCmd == 3 ==> ListingDefined(registry.users)
      ensures seen == env.(listing := seen.listing) && args == Spec.GetArgs(cmd.getCmd, seen)
      ensures cmd.getCmd == 3 ==> IsListing(args, registry.users)
    {
      seen := env;
      if cmd.getCmd == 3 {
        var all, nwrite := registry.GetAllUsers();
        args := all[..nwrite];
        seen := env.(listing := args);
      } else {
        args := Spec.GetArgs(cmd.getCmd, env);
      }
    }

    /** Length and first byte of the arguments are those the model reckons with. */
    lemma ArgsAre(args: seq<byte>, users: seq<Account>, seen: Spec.Env)
      requires cmd.getCmd < 4 && args == Spec.GetArgs(cmd.getCmd, seen)
      requires cmd.getCmd == 3 ==> users != [] && IsListing(args, users)
      ensures |args| == Spec.ArgsSize(cmd.getCmd, users) && args != [] && args[0] == Spec.FirstArg(cmd.getCmd, users)
    {
      if cmd.getCmd == 3 {
        ListingHead(args, users);
      }
    }

    /** One entry of get_handlers and get_marshal. */
    method ProcessGet(env: Spec.Env)
      returns (next: Spec.State, ghost log: seq<Spec.Action>, ghost seen: Spec.Env)
      requires Sound() && Accounts.Valid(registry.users)
      requires Spec.GetDefined(View().output.Room(), cmd.getCmd, registry.users)
      modifies this`status, output, output.data
      ensures Valid() && seen == env.(listing := seen.listing) && next != Spec.Unstarted
      ensures Spec.Next(next, View(), registry.users, log) == Spec.ProcessGet(old(View()), id, registry.users, seen)
    {
      var args;
      args, seen := GetArgs(env);
      ArgsAre(args, registry.users, seen);
      var nargs := if cmd.getCmd == 3 then registry.size % 0x100 else 1;
      status := Spec.SUCCESS;
      next, log := Spec.CmdWrite, [Spec.Executed(id, Spec.NoChange)];
      var len := Cmd.GetMarshal(output, status, cmd.getCmd, nargs, args);
      if len == -1 {
        next := Spec.Errored;
      }
    }

    /** The entries of user_handlers. */
    method HandleUser() returns (ans: bool, ghost change: Spec.Change)
      requires registry.Valid() && Spec.HandleUser(cmd.View(), registry.users).Handled?
      requires StringsIn(cmd.View())
      modifies registry, registry.nodes
      ensures registry.Valid()
      ensures Spec.Handled(registry.users, change) == Spec.HandleUser(cmd.View(), old(registry.users))
      ensures ans <==> change != Spec.NoChange
    {
      var name, secret := CStr(cmd.uname), CStr(cmd.passwd);
      change := Spec.HandleUser(cmd.View(), registry.users).change;
      if cmd.userCmd == Cmd.CREATE {
        ans := registry.AddUser(name, cmd.ulen, secret, cmd.plen, cmd.admin != 0);
      } else if cmd.userCmd == Cmd.DELETE {
        ans := registry.DeleteUser(name);
      } else {
        ans := registry.EditUser(name, secret, cmd.plen);
      }
    }

    /** user_marshal or quit_marshal after the status is known. */
    method ReplyStatus(code: byte, ghost change: Spec.Change, ghost users: seq<Account>)
      returns (next: Spec.State, ghost log: seq<Spec.Action>)
      requires Valid()
      modifies this`status, output, output.data
      ensures Valid() && next != Spec.Unstarted
      ensures Spec.Next(next, View(), users, log) == Spec.ReplyStatus(old(View()), code, id, users, change)
    {
      status := code;
      next, log := Spec.CmdWrite, [Spec.Executed(id, change)];
      var len := Cmd.StatusMarshal(output, status);
      if len == -1 {
        next := Spec.Errored;
      }
    }

    method ProcessUser() returns (next: Spec.State, ghost log: seq<Spec.Action>)
      requires Sound() && StringsIn(cmd.View())
      requires Spec.HandleUser(cmd.View(), registry.users).Handled?
      modifies this`status, output, output.data, registry, registry.nodes
      ensures Sound() == old(Sound()) && next != Spec.Unstarted
      ensures Spec.Next(next, View(), registry.users, log) == Spec.ProcessUser(old(View()), id, old(registry.users))
    {
      var ans;
      ghost var change;
      ans, change := HandleUser();
      var code := if ans then Spec.SUCCESS else Spec.USER_CREDENTIA;
      next, log := ReplyStatus(code, change, registry.users);
    }

    /** cmd_process. */
    method CmdProcess(env: Spec.Env)
      returns (next: Spec.State, ghost log: seq<Spec.Action>, ghost seen: Spec.Env)
      requires Sound() && Accounts.Valid(registry.users)
      requires StringsIn(cmd.View())
      requires Spec.CmdProcess(View(), id, registry.users, env).Next?
      modifies this`status, output, output.data, registry, registry.nodes
      ensures Sound() == old(Sound()) && seen == env.(listing := seen.listing) && next != Spec.Unstarted
      ensures Spec.Next(next, View(), registry.users, log)
              == Spec.CmdProcess(old(View()), id, old(registry.users), seen)
    {
      seen := env;
      if cmd.kind == Cmd.GET {
        next, log, seen := ProcessGet(env);
      } else if cmd.kind == Cmd.USER {
        next, log := ProcessUser();
      } else if cmd.kind == Cmd.QUIT {
        next, log := ReplyStatus(Spec.SUCCESS, Spec.NoChange, registry.users);
      } else {
        next, log := Spec.Errored, [Spec.Executed(id, Spec.NoChange)];
      }
    }

    /** Receive into the read buffer and let the command parser consume it. */
    method CmdFeed(bytes: seq<byte>) returns (error: bool)
      requires Valid() && |bytes| <= View().input.Room() && bytes != []
      modifies cmd, input, input.data
      ensures Valid() && View() == Spec.CmdFed(old(View()), bytes)
      ensures error <==> Cmd.IsError(cmd.state)
    {
      error := TakeCommand(cmd, input, bytes);
    }

    method CmdDone(error: bool, env: Spec.Env)
      returns (next: Spec.State, ghost log: seq<Spec.Action>, ghost seen: Spec.Env)
      requires Sound() && Accounts.Valid(registry.users) && error == Cmd.IsError(cmd.state)
      requires StringsIn(cmd.View())
      requires Spec.CmdDone(View(), id, registry.users, env).Next?
      modifies this`status, this`interest, output, output.data, registry, registry.nodes
      ensures Sound() == old(Sound()) && seen == env.(listing := seen.listing) && next != Spec.Unstarted
      ensures Spec.Next(next, View(), registry.users, log) == Spec.CmdDone(old(View()), id, old(registry.users), seen)
    {
      interest := WRITE_ONLY;
      next, log, seen := CmdProcess(env);
      if error {
        next := Spec.Errored;
      }
    }

    /** cmd_read. */
    method CmdRead(recv: RecvResult, env: Spec.Env)
      returns (next: Spec.State, ghost log: seq<Spec.Action>, ghost seen: Spec.Env)
      requires Sound() && (recv.Got? ==> |recv.bytes| <= View().input.Room())
      requires Accounts.Valid(registry.users) && WillFit(View(), recv) && View().current == Spec.CmdRead
      requires Spec.OnCmdRead(View(), id, registry.users, recv, env).Next?
      modifies this`status, this`interest, cmd, input, input.data, output, output.data, registry, registry.nodes
      ensures Sound() == old(Sound()) && seen == env.(listing := seen.listing) && next != Spec.Unstarted
      ensures Spec.Next(next, View(), registry.users, log)
              == Spec.OnCmdRead(old(View()), id, old(registry.users), recv, seen)
    {
      seen := env;
      if recv.RecvFailed? || recv.bytes == [] {
        next, log := Spec.Errored, [];
        return;
      }
      next, log := Spec.CmdRead, [];
      var error := CmdFeed(recv.bytes);
      if Cmd.IsDone(cmd.state) {
        next, log, seen := CmdDone(error, env);
      }
    }

    /** cmd_write. */
    method CmdWrite(send: SendResult) returns (next: Spec.State)
      requires Valid() && (send.Sent? ==> send.n <= |View().output.contents|)
      modifies this`interest, output, output.data
      ensures Valid()
      ensures forall users :: Spec.Next(next, View(), users, []) == Spec.OnCmdWrite(old(View()), users, send)
    {
      next := Spec.CmdWrite;
      if status == Spec.CMD_NOT_SUPPORTED {
        next := Spec.Errored;
      } else if send.Sent? && send.n > 0 {
        if cmd.kind == Cmd.QUIT {
          next := Spec.Finished;
        } else {
          output.ReadAdv(send.n);
          if !output.CanRead() {
            interest := READ_ONLY;
            next := Spec.CmdRead;
          }
        }
      }
    }

    // stm.c over the table of prawtos.c

    method HandleFirst()
      requires Valid() && Driven()
      modifies stm, auth
      ensures Valid() && Driven() && View() == Spec.HandleFirst(old(View()))
    {
      Stm.StartAlternates(stm.View());
      var starts := stm.current.NotStarted?;
      stm.HandleFirst();
      if starts {
        auth.Init();
      }
    }

    /** The engine's jump, and the on_arrival callbacks of the prawtos table. */
    method Jump(next: Spec.State)
      requires Valid() && Driven() && stm.current.At? && next != Spec.Unstarted
      modifies stm, auth, cmd
      ensures Valid() && Driven() && View() == Spec.Jump(old(View()), next)
    {
      Stm.JumpAlternates(stm.View(), M.Index(next));
      var moves := stm.current != Stm.At(M.Index(next));
      stm.Jump(M.Index(next));
      if moves {
        if next == Spec.AuthRead {
          auth.Init();
        } else if next == Spec.CmdRead {
          cmd.Init();
        }
      }
    }

    /** The jump after a handler's outcome. */
    method Finish(next: Spec.State, ghost o: Spec.Outcome)
      requires Sound() && Driven() && stm.current.At? && next != Spec.Unstarted
      requires o.Next? && o.next == next && o.session == View()
      modifies stm, auth, cmd
      ensures Sound() == old(Sound()) && Driven() == old(Driven())
      ensures Spec.Next(next, View(), o.users, o.log) == Spec.Jumped(o)
    {
      Jump(next);
    }

    /** The on_read_ready callback of the current state. */
    method OnRead(recv: RecvResult, env: Spec.Env)
      returns (next: Spec.State, ghost log: seq<Spec.Action>, ghost seen: Spec.Env)
      requires Sound() && (recv.Got? ==> |recv.bytes| <= View().input.Room())
      requires Accounts.Valid(registry.users) && WillFit(View(), recv)
      requires View().current == Spec.AuthRead || View().current == Spec.CmdRead
      requires Spec.OnRead(View(), id, registry.users, recv, env).Next?
      modifies this`authStatus, this`status, this`interest, auth, cmd, input, input.data
      modifies output, output.data, registry, registry.nodes
      ensures Sound() == old(Sound()) && seen == env.(listing := seen.listing) && next != Spec.Unstarted
      ensures Spec.Next(next, View(), registry.users, log)
              == Spec.OnRead(old(View()), id, old(registry.users), recv, seen)
    {
      seen := env;
      var st := stm.State();
      if st == M.Index(Spec.AuthRead) {
        next, log := AuthRead(recv);
      } else {
        next, log, seen := CmdRead(recv, env);
      }
    }

    method ReadAndJump(recv: RecvResult, env: Spec.Env)
      returns (next: Spec.State, ghost log: seq<Spec.Action>, ghost seen: Spec.Env)
      requires Sound() && Driven() && (recv.Got? ==> |recv.bytes| <= View().input.Room())
      requires Accounts.Valid(registry.users) && WillFit(View(), recv)
      requires View().current == Spec.AuthRead || View().current == Spec.CmdRead
      requires Spec.OnRead(View(), id, registry.users, recv, env).Next?
      modifies this`authStatus, this`status, this`interest, stm, auth, cmd, input, input.data
      modifies output, output.data, registry, registry.nodes
      ensures Sound() == old(Sound()) && Driven() == old(Driven()) && seen == env.(listing := seen.listing)
      ensures Spec.Next(next, View(), registry.users, log)
              == Spec.Jumped(Spec.OnRead(old(View()), id, old(registry.users), recv, seen))
    {
      next, log, seen := OnRead(recv, env);
      Finish(next, Spec.OnRead(old(View()), id, old(registry.users), recv, seen));
    }

    /** stm_handler_read; the handler exists, so the call to abort is not reached. */
    method StmRead(recv: RecvResult, env: Spec.Env)
      returns (next: Spec.State, ghost log: seq<Spec.Action>, ghost seen: Spec.Env)
      requires Sound() && Driven() && (recv.Got? ==> |recv.bytes| <= View().input.Room())
      requires Accounts.Valid(registry.users) && SessionInv(View())
      requires !Spec.ReadAborts(View()) && Spec.StmRead(View(), id, registry.users, recv, env).Next?
      modifies this`authStatus, this`status, this`interest, stm, auth, cmd, input, input.data
      modifies output, output.data, registry, registry.nodes
      ensures Sound() == old(Sound()) && Driven() == old(Driven()) && seen == env.(listing := seen.listing)
      ensures Spec.Next(next, View(), registry.users, log)
              == Spec.StmRead(old(View()), id, old(registry.users), recv, seen)
    {
      InvariantFits(View(), recv);
      HandleFirst();
      next, log, seen := ReadAndJump(recv, env);
    }

    /** The on_write_ready callback of the current state. */
    method OnWrite(send: SendResult) returns (next: Spec.State)
      requires Valid() && (send.Sent? ==> send.n <= |View().output.contents|)
      requires View().current == Spec.AuthWrite || View().current == Spec.CmdWrite
      modifies this`interest, output, output.data
      ensures Valid() && next != Spec.Unstarted
      ensures old(View()).current == Spec.AuthWrite ==>
                forall users :: Spec.Next(next, View(), users, []) == Spec.OnAuthWrite(old(View()), users, send)
      ensures old(View()).current == Spec.CmdWrite ==>
                forall users :: Spec.Next(next, View(), users, []) == Spec.OnCmdWrite(old(View()), users, send)
    {
      var st := stm.State();
      if st == M.Index(Spec.AuthWrite) {
        next := AuthWrite(send);
        assert Spec.Next(next, View(), [], []) == Spec.OnAuthWrite(old(View()), [], send);
      } else {
        next := CmdWrite(send);
        assert Spec.Next(next, View(), [], []) == Spec.OnCmdWrite(old(View()), [], send);
      }
    }

    /** stm_handler_write. */
    method StmWrite(send: SendResult) returns (next: Spec.State)
      requires Valid() && Driven() && (send.Sent? ==> send.n <= |View().output.contents|)
      requires !Spec.WriteAborts(View())
      modifies this`interest, stm, auth, cmd, output, output.data
      ensures Valid() && Driven()
      ensures forall users :: Spec.Next(next, View(), users, []) == Spec.StmWrite(old(View()), users, send)
    {
      HandleFirst();
      next := OnWrite(send);
      Jump(next);
    }
  }
}
