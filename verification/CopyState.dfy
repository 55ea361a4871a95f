/** The COPY handlers of src/stm/copy.c over their mutable objects: two linked
    copy_st records, the session's two buffers, and the selector's interests.
    Every handler is proved to take the step of the transition system in Relay. */
module CopyState {
  import opened Bytes
  import opened Io
  import opened LinearBuffer
  import opened Statistics
  import R = Relay

  datatype Answer = COPY | DONE

  class CopySt {
    var fd: int
    var readBuff: Buffer
    var writeBuff: Buffer
    var duplex: Ops
    var other: CopySt?

    constructor (stale: Buffer)
      ensures fresh(this)
    {
      fd, readBuff, writeBuff, duplex, other := -1, stale, stale, NOOP, null;
    }
  }

  class Session {
    const input: Buffer
    const output: Buffer
    const client: CopySt
    const server: CopySt
    var clientFd: int
    var serverFd: int
    /** What the selector holds for each registered descriptor. */
    var registered: map<int, Ops>
    var bytesSent: nat

    /** A session with empty buffers of the given sizes; the origin descriptor is
        -1 when the request phase did not connect. */
    constructor (inputSize: nat, outputSize: nat, clientFd: int, serverFd: int)
      requires clientFd != -1 && clientFd != serverFd
      ensures Valid() && fresh(input) && fresh(output) && fresh(client) && fresh(server)
      ensures View().input == Empty(inputSize) && View().output == Empty(outputSize)
    {
      var rawInput, rawOutput := new byte[inputSize], new byte[outputSize];
      var inBuff := new Buffer(rawInput);
      var outBuff := new Buffer(rawOutput);
      var clientCopy := new CopySt(inBuff);
      var serverCopy := new CopySt(inBuff);
      input, output, client, server := inBuff, outBuff, clientCopy, serverCopy;
      this.clientFd, this.serverFd, bytesSent := clientFd, serverFd, 0;
      registered := map[clientFd := Ops(true, false), serverFd := Ops(true, false)];
    }

    /** Distinct parts, sound buffers, and each connected descriptor registered. */
    ghost predicate Valid()
      reads this, input, output
    {
      && client != server && input != output && input.data != output.data
      && input.Valid() && output.Valid()
      && clientFd != -1 && clientFd != serverFd
      && clientFd in registered && (serverFd != -1 ==> serverFd in registered)
    }

    /** The crosswise wiring that copy_arrival sets up. */
    ghost predicate Linked()
      reads this, client, server
    {
      && client.fd == clientFd && client.readBuff == input && client.writeBuff == output && client.other == server
      && server.fd == serverFd && server.readBuff == output && server.writeBuff == input && server.other == client
    }

    ghost function Interest(fd: int): Ops
      reads this
    {
      if fd in registered then registered[fd] else NOOP
    }

    ghost function View(): (s: R.Session)
      requires Valid()
      reads this, client, server, input, output, input.data, output.data
      ensures s.input.Valid() && s.output.Valid()
    {
      R.Session(R.End(clientFd, client.duplex, Interest(clientFd)), R.End(serverFd, server.duplex, Interest(serverFd)),
                input.View(), output.View(), bytesSent)
    }

    ghost function SideOf(fd: int): R.Side
      reads this
    {
      if fd == clientFd then R.Client else R.Server
    }

    method Arrival()
      requires Valid()
      modifies client, server
      ensures Valid() && Linked()
      ensures View() == old(View()).(client := old(View()).client.(duplex := READ_WRITE),
                                     server := old(View()).server.(duplex := READ_WRITE))
    {
      var state := client;
      state.fd := clientFd;
      state.readBuff := input;
      state.writeBuff := output;
      state.duplex := READ_WRITE;
      state.other := server;
      state := server;
      state.fd := serverFd;
      state.readBuff := output;
      state.writeBuff := input;
      state.duplex := READ_WRITE;
      state.other := client;
    }

    method CopyPtr(fd: int) returns (state: CopySt)
      requires Linked() && (fd == clientFd || fd == serverFd)
      ensures state == (if SideOf(fd) == R.Client then client else server) && state.fd == fd
    {
      state := client;
      if state.fd != fd {
        state := server;
      }
    }

    method CheckInterest(state: CopySt)
      requires Valid() && Linked() && (state == client || state == server)
      modifies this`registered
      ensures Valid() && View() == R.CheckInterest(old(View()), if state == client then R.Client else R.Server)
    {
      if state.fd != -1 {
        var ret := NOOP;
        if state.duplex.read && state.readBuff.CanWrite() {
          ret := ret.(read := true);
        }
        if state.duplex.write && state.writeBuff.CanRead() {
          ret := ret.(write := true);
        }
        registered := registered[state.fd := ret];
      }
    }

    method CheckBoth(state: CopySt, ghost side: R.Side)
      requires Valid() && Linked() && state == (if side == R.Client then client else server)
      modifies this`registered
      ensures Valid() && View() == R.CheckBoth(old(View()), side)
    {
      CheckInterest(state);
      CheckInterest(state.other);
    }

    method EndRead(state: CopySt, ghost side: R.Side)
      requires Valid() && Linked() && state == (if side == R.Client then client else server)
      modifies client`duplex, server`duplex
      ensures Linked() && View() == R.EndRead(old(View()), side)
    {
      state.duplex := state.duplex.(read := false);
      if state.other.fd != -1 {
        state.other.duplex := state.other.duplex.(write := false);
      }
    }

    method EndWrite(state: CopySt, ghost side: R.Side)
      requires Valid() && Linked() && state == (if side == R.Client then client else server)
      modifies client`duplex, server`duplex
      ensures Linked() && View() == R.EndWrite(old(View()), side)
    {
      state.duplex := state.duplex.(write := false);
      if state.other.fd != -1 {
        state.other.duplex := state.other.duplex.(read := false);
      }
    }

    /** The bytes of recv go into the read buffer; an end or an error closes. */
    method Receive(state: CopySt, recv: RecvResult, ghost side: R.Side)
      requires Valid() && Linked() && state == (if side == R.Client then client else server)
      requires recv.Got? ==> |recv.bytes| <= View().Pipe(side).Room()
      modifies client`duplex, server`duplex, input, output, input.data, output.data
      ensures Valid() && Linked()
      ensures View() == if recv.RecvFailed? || recv.bytes == [] then R.EndRead(old(View()), side)
                        else old(View()).WithPipe(side, old(View()).Pipe(side).Put(recv.bytes))
    {
      if recv.RecvFailed? || recv.bytes == [] {
        EndRead(state, side);
      } else {
        state.readBuff.Fill(recv.bytes);
      }
    }

    /** `recv` is what the system call returns for the count offered. */
    method CopyRead(fd: int, recv: RecvResult) returns (ret: Answer)
      requires Valid() && Linked() && fd != -1 && (fd == clientFd || fd == serverFd)
      requires recv.Got? ==> |recv.bytes| <= View().Pipe(SideOf(fd)).Room()
      modifies this`registered, client`duplex, server`duplex, input, output, input.data, output.data
      ensures Valid() && Linked() && View() == R.CopyRead(old(View()), SideOf(fd), recv)
      ensures ret == DONE <==> View().At(SideOf(fd)).duplex == NOOP
    {
      var state := CopyPtr(fd);
      ghost var side := SideOf(fd);
      ret := COPY;
      Receive(state, recv, side);
      CheckBoth(state, side);
      if state.duplex == NOOP {
        ret := DONE;
      }
    }

    /** Bytes sent are counted and leave the write buffer; an error closes. */
    method Deliver(state: CopySt, send: SendResult, ghost side: R.Side)
      requires Valid() && Linked() && state == (if side == R.Client then client else server)
      requires send.Sent? ==> send.n <= |View().Pipe(side.Other()).contents|
      modifies this`bytesSent, client`duplex, server`duplex, input, output, input.data, output.data
      ensures Valid() && Linked()
      ensures send.SendFailed? ==> View() == R.EndWrite(old(View()), side)
      ensures send.Sent? ==>
                View() == old(View()).(bytesSent := AddBytesSent(old(bytesSent), send.n))
                                     .WithPipe(side.Other(), old(View()).Pipe(side.Other()).Take(send.n))
    {
      if send.SendFailed? {
        EndWrite(state, side);
      } else {
        bytesSent := AddBytesSent(bytesSent, send.n);
        state.writeBuff.ReadAdv(send.n);
      }
    }

    method CopyWrite(fd: int, send: SendResult) returns (ret: Answer)
      requires Valid() && Linked() && fd != -1 && (fd == clientFd || fd == serverFd)
      requires send.Sent? ==> send.n <= |View().Pipe(SideOf(fd).Other()).contents|
      modifies this`registered, this`bytesSent, client`duplex, server`duplex, input, output, input.data, output.data
      ensures Valid() && Linked() && View() == R.CopyWrite(old(View()), SideOf(fd), send)
      ensures ret == DONE <==> View().At(SideOf(fd)).duplex == NOOP
    {
      var state := CopyPtr(fd);
      ghost var side := SideOf(fd);
      ret := COPY;
      Deliver(state, send, side);
      CheckBoth(state, side);
      if state.duplex == NOOP {
        ret := DONE;
      }
    }
  }
}
