/** The COPY state of src/stm/copy.c as a transition system: two endpoints, two
    buffers used crosswise, half-close bits and registered selector interests. */
module Relay {
  import opened Bytes
  import opened Io
  import opened LinearBuffer
  import opened Statistics
  import opened Feeding
  import Request = RequestParser

  /** INPUT_BUFFER_SIZE and OUTPUT_BUFFER_SIZE */
  const SESSION_BUFFER: nat := 100

  datatype Side = Client | Server {
    function Other(): Side {
      if Client? then Server else Client
    }
  }

  /** One copy_st: its descriptor, its duplex bits, and the interest that the
      selector currently holds for the descriptor. */
  datatype End = End(fd: int, duplex: Ops, interest: Ops)

  datatype Session = Session(client: End, server: End, input: Queue, output: Queue, bytesSent: nat) {

    function At(side: Side): End {
      if side.Client? then client else server
    }

    function With(side: Side, e: End): Session {
      if side.Client? then this.(client := e) else this.(server := e)
    }

    /** The buffer that `side` reads into and the other side writes from. */
    function Pipe(side: Side): Queue {
      if side.Client? then input else output
    }

    function WithPipe(side: Side, q: Queue): Session {
      if side.Client? then this.(input := q) else this.(output := q)
    }

    /** The direction that starts at `side` still accepts bytes. */
    predicate Open(side: Side) {
      At(side).duplex.read
    }
  }

  /** A readiness event together with what the system call returns. */
  datatype Event = Readable(side: Side, recv: RecvResult) | Writable(side: Side, send: SendResult)

  // ---------------------------------------------------------------------------
  // The handlers

  function Wanted(s: Session, side: Side): Ops {
    Ops(s.At(side).duplex.read && s.Pipe(side).Room() > 0,
        s.At(side).duplex.write && s.Pipe(side.Other()).contents != [])
  }

  function CheckInterest(s: Session, side: Side): Session {
    if s.At(side).fd != -1 then s.With(side, s.At(side).(interest := Wanted(s, side))) else s
  }

  function CheckBoth(s: Session, side: Side): Session {
    CheckInterest(CheckInterest(s, side), side.Other())
  }

  function DropRead(s: Session, side: Side): Session {
    s.With(side, s.At(side).(duplex := s.At(side).duplex.(read := false)))
  }

  function DropWrite(s: Session, side: Side): Session {
    s.With(side, s.At(side).(duplex := s.At(side).duplex.(write := false)))
  }

  /** recv returned 0 or -1. */
  function EndRead(s: Session, side: Side): Session {
    var t := DropRead(s, side);
    if t.At(side.Other()).fd != -1 then DropWrite(t, side.Other()) else t
  }

  /** send returned -1. */
  function EndWrite(s: Session, side: Side): Session {
    var t := DropWrite(s, side);
    if t.At(side.Other()).fd != -1 then DropRead(t, side.Other()) else t
  }

  function CopyRead(s: Session, side: Side, r: RecvResult): Session {
    var t := if r.RecvFailed? || r.bytes == [] then EndRead(s, side)
             else s.WithPipe(side, s.Pipe(side).Put(r.bytes));
    CheckBoth(t, side)
  }

  function CopyWrite(s: Session, side: Side, r: SendResult): Session
    requires r.Sent? ==> r.n <= |s.Pipe(side.Other()).contents|
  {
    var t := if r.SendFailed? then EndWrite(s, side)
             else s.(bytesSent := AddBytesSent(s.bytesSent, r.n))
                   .WithPipe(side.Other(), s.Pipe(side.Other()).Take(r.n));
    CheckBoth(t, side)
  }

  // ---------------------------------------------------------------------------
  // Runs

  /** The selector only dispatches what the registered interest asks for, and
      the system calls move at most the count they are offered. */
  predicate Enabled(s: Session, e: Event) {
    match e
    case Readable(side, r) =>
      s.At(side).fd != -1 && s.At(side).interest.read && (r.Got? ==> |r.bytes| <= s.Pipe(side).Room())
    case Writable(side, r) =>
      s.At(side).fd != -1 && s.At(side).interest.write && (r.Sent? ==> r.n <= |s.Pipe(side.Other()).contents|)
  }

  function Step(s: Session, e: Event): Session
    requires Enabled(s, e)
  {
    match e
    case Readable(side, r) => CopyRead(s, side, r)
    case Writable(side, r) => CopyWrite(s, side, r)
  }

  /** The handler answers DONE instead of COPY. */
  predicate ReturnsDone(s: Session, e: Event)
    requires Enabled(s, e)
  {
    Step(s, e).At(e.side).duplex == NOOP
  }

  /** A run of the COPY state; DONE leaves the state. */
  predicate ValidRun(s: Session, run: seq<Event>)
    decreases |run|
  {
    run == [] ||
    (Enabled(s, run[0]) && (ReturnsDone(s, run[0]) ==> |run| == 1) && ValidRun(Step(s, run[0]), run[1..]))
  }

  function Final(s: Session, run: seq<Event>): Session
    requires ValidRun(s, run)
    decreases |run|
  {
    if run == [] then s else Final(Step(s, run[0]), run[1..])
  }

  function StepReceived(e: Event, dir: Side): seq<byte> {
    if e.Readable? && e.side == dir && e.recv.Got? then e.recv.bytes else []
  }

  function StepDelivered(s: Session, e: Event, dir: Side): seq<byte>
    requires Enabled(s, e)
  {
    if e.Writable? && e.side == dir.Other() && e.send.Sent? then s.Pipe(dir).contents[..e.send.n] else []
  }

  /** All bytes that recv took from `dir` during the run. */
  function Received(run: seq<Event>, dir: Side): seq<byte> {
    if run == [] then [] else StepReceived(run[0], dir) + Received(run[1..], dir)
  }

  /** All bytes that send handed to the peer of `dir` during the run. */
  function Delivered(s: Session, run: seq<Event>, dir: Side): seq<byte>
    requires ValidRun(s, run)
    decreases |run|
  {
    if run == [] then [] else StepDelivered(s, run[0], dir) + Delivered(Step(s, run[0]), run[1..], dir)
  }

  // ---------------------------------------------------------------------------
  // Invariants

  predicate BuffersValid(s: Session) {
    s.input.Valid() && s.output.Valid() && s.input.capacity > 0 && s.output.capacity > 0
  }

  predicate BothConnected(s: Session) {
    s.client.fd != -1 && s.server.fd != -1
  }

  /** What one side may still read, the other may still write. */
  predicate Symmetric(s: Session) {
    s.client.duplex.read == s.server.duplex.write && s.server.duplex.read == s.client.duplex.write
  }

  predicate Within(inner: Ops, outer: Ops) {
    (inner.read ==> outer.read) && (inner.write ==> outer.write)
  }

  predicate InterestWithinDuplex(s: Session) {
    Within(s.client.interest, s.client.duplex) && Within(s.server.interest, s.server.duplex)
  }

  /** The interests registered are exactly those the bits and buffers call for. */
  predicate Settled(s: Session) {
    s.client.interest == Wanted(s, Client) && s.server.interest == Wanted(s, Server)
  }

  /** No direction of `t` is open that was not open in `s`. */
  predicate NeverReopens(s: Session, t: Session) {
    (t.Open(Client) ==> s.Open(Client)) && (t.Open(Server) ==> s.Open(Server))
  }

  /** The session as copy_arrival leaves it: both directions open, any bytes
      already buffered, interests still those of the previous state. */
  predicate Arrived(s: Session) {
    BuffersValid(s) && BothConnected(s) && s.client.duplex == READ_WRITE && s.server.duplex == READ_WRITE
  }

  predicate Inv(s: Session) {
    BuffersValid(s) && BothConnected(s) && Symmetric(s) && InterestWithinDuplex(s)
  }

  lemma ArrivedInv(s: Session)
    requires Arrived(s)
    ensures Inv(s) && s.Open(Client) && s.Open(Server)
  {
  }

  // ---------------------------------------------------------------------------
  // Conservation

  /** Recomputing interests touches nothing else. */
  lemma CheckBothKeeps(s: Session, side: Side)
    ensures var t := CheckBoth(s, side);
            && t.input == s.input && t.output == s.output && t.bytesSent == s.bytesSent
            && t.client.fd == s.client.fd && t.server.fd == s.server.fd
            && t.client.duplex == s.client.duplex && t.server.duplex == s.server.duplex
            && t.client.interest == (if s.client.fd != -1 then Wanted(s, Client) else s.client.interest)
            && t.server.interest == (if s.server.fd != -1 then Wanted(s, Server) else s.server.interest)
  {
  }

  lemma ReadConserves(s: Session, e: Event, dir: Side)
    requires BuffersValid(s) && Enabled(s, e) && e.Readable?
    ensures BuffersValid(Step(s, e)) && Step(s, e).Pipe(dir).capacity == s.Pipe(dir).capacity
    ensures Step(s, e).Pipe(dir).contents == s.Pipe(dir).contents + StepReceived(e, dir)
  {
    var side := e.side;
    if e.recv.RecvFailed? || e.recv.bytes == [] {
      CheckBothKeeps(EndRead(s, side), side);
    } else {
      CheckBothKeeps(s.WithPipe(side, s.Pipe(side).Put(e.recv.bytes)), side);
    }
  }

  lemma WriteConserves(s: Session, e: Event, dir: Side)
    requires BuffersValid(s) && Enabled(s, e) && e.Writable?
    ensures BuffersValid(Step(s, e)) && Step(s, e).Pipe(dir).capacity == s.Pipe(dir).capacity
    ensures StepDelivered(s, e, dir) + Step(s, e).Pipe(dir).contents == s.Pipe(dir).contents
  {
    var side := e.side;
    if e.send.SendFailed? {
      CheckBothKeeps(EndWrite(s, side), side);
    } else {
      CheckBothKeeps(s.(bytesSent := AddBytesSent(s.bytesSent, e.send.n))
                      .WithPipe(side.Other(), s.Pipe(side.Other()).Take(e.send.n)), side);
    }
  }

  lemma StepConserves(s: Session, e: Event, dir: Side)
    requires BuffersValid(s) && Enabled(s, e)
    ensures BuffersValid(Step(s, e)) && Step(s, e).Pipe(dir).capacity == s.Pipe(dir).capacity
    ensures s.Pipe(dir).contents + StepReceived(e, dir) == StepDelivered(s, e, dir) + Step(s, e).Pipe(dir).contents
  {
    if e.Readable? {
      ReadConserves(s, e, dir);
    } else {
      WriteConserves(s, e, dir);
    }
  }

  lemma ChainTransfers(start: seq<byte>, in1: seq<byte>, out1: seq<byte>, mid: seq<byte>,
                       in2: seq<byte>, out2: seq<byte>, end: seq<byte>)
    requires start + in1 == out1 + mid && mid + in2 == out2 + end
    ensures start + (in1 + in2) == (out1 + out2) + end
  {
    calc {
      start + (in1 + in2);
      (start + in1) + in2;
      out1 + (mid + in2);
      (out1 + out2) + end;
    }
  }

  /** In every run and each direction: the bytes buffered at entry followed by
      all bytes received are the bytes delivered followed by those still buffered. */
  lemma {:induction false} RelayConservation(s: Session, run: seq<Event>, dir: Side)
    requires BuffersValid(s) && ValidRun(s, run)
    ensures BuffersValid(Final(s, run))
    ensures s.Pipe(dir).contents + Received(run, dir) == Delivered(s, run, dir) + Final(s, run).Pipe(dir).contents
    ensures Delivered(s, run, dir) <= s.Pipe(dir).contents + Received(run, dir)
    decreases |run|
  {
    if run == [] {
    } else {
      var e, t := run[0], Step(s, run[0]);
      StepConserves(s, e, dir);
      RelayConservation(t, run[1..], dir);
      ChainTransfers(s.Pipe(dir).contents, StepReceived(e, dir), StepDelivered(s, e, dir), t.Pipe(dir).contents,
                     Received(run[1..], dir), Delivered(t, run[1..], dir), Final(t, run[1..]).Pipe(dir).contents);
    }
  }

  /** The byte counter equals the deliveries of the run exactly while their sum
      stays below the cap; otherwise it undercounts and never reaches the cap. */
  lemma {:induction false} CounterTracksDeliveries(s: Session, run: seq<Event>)
    requires ValidRun(s, run) && s.bytesSent < UINT32_MAX
    ensures
      var total := |Delivered(s, run, Client)| + |Delivered(s, run, Server)|;
      && s.bytesSent <= Final(s, run).bytesSent < UINT32_MAX
      && Final(s, run).bytesSent <= s.bytesSent + total
      && (Final(s, run).bytesSent == s.bytesSent + total <==> s.bytesSent + total < UINT32_MAX)
    decreases |run|
  {
    if run == [] {
    } else {
      CounterTracksDeliveries(Step(s, run[0]), run[1..]);
    }
  }

  // ---------------------------------------------------------------------------
  // Half-close

  lemma ReadKeepsInv(s: Session, e: Event)
    requires Inv(s) && Enabled(s, e) && e.Readable?
    ensures Symmetric(Step(s, e)) && Settled(Step(s, e)) && BothConnected(Step(s, e))
    ensures NeverReopens(s, Step(s, e))
  {
    var side := e.side;
    if e.recv.RecvFailed? || e.recv.bytes == [] {
      CheckBothKeeps(EndRead(s, side), side);
    } else {
      CheckBothKeeps(s.WithPipe(side, s.Pipe(side).Put(e.recv.bytes)), side);
    }
  }

  lemma WriteKeepsInv(s: Session, e: Event)
    requires Inv(s) && Enabled(s, e) && e.Writable?
    ensures Symmetric(Step(s, e)) && Settled(Step(s, e)) && BothConnected(Step(s, e))
    ensures NeverReopens(s, Step(s, e))
  {
    var side := e.side;
    if e.send.SendFailed? {
      CheckBothKeeps(EndWrite(s, side), side);
    } else {
      CheckBothKeeps(s.(bytesSent := AddBytesSent(s.bytesSent, e.send.n))
                      .WithPipe(side.Other(), s.Pipe(side.Other()).Take(e.send.n)), side);
    }
  }

  lemma StepKeepsInv(s: Session, e: Event)
    requires Inv(s) && Enabled(s, e)
    ensures Inv(Step(s, e)) && Settled(Step(s, e))
    ensures NeverReopens(s, Step(s, e))
    ensures ReturnsDone(s, e) <==> !Step(s, e).Open(Client) && !Step(s, e).Open(Server)
  {
    StepConserves(s, e, Client);
    if e.Readable? {
      ReadKeepsInv(s, e);
    } else {
      WriteKeepsInv(s, e);
    }
  }

  lemma {:induction false} RunKeepsInv(s: Session, run: seq<Event>)
    requires Inv(s) && ValidRun(s, run)
    ensures Inv(Final(s, run)) && (run != [] ==> Settled(Final(s, run)))
    ensures NeverReopens(s, Final(s, run))
    decreases |run|
  {
    if run == [] {
    } else {
      StepKeepsInv(s, run[0]);
      RunKeepsInv(Step(s, run[0]), run[1..]);
    }
  }

  /** A direction that is closed stays closed and carries no further byte. */
  lemma {:induction false} ClosedStaysSilent(s: Session, run: seq<Event>, dir: Side)
    requires Inv(s) && ValidRun(s, run) && !s.Open(dir)
    ensures !Final(s, run).Open(dir)
    ensures Received(run, dir) == [] && Delivered(s, run, dir) == []
    ensures Final(s, run).Pipe(dir) == s.Pipe(dir)
    decreases |run|
  {
    if run == [] {
    } else {
      StepKeepsInv(s, run[0]);
      ClosedStaysSilent(Step(s, run[0]), run[1..], dir);
    }
  }

  /** Over whole runs from arrival: the bits of the two sides agree, every step
      starts with a direction open, and it answers DONE exactly when it closes the last. */
  lemma HalfCloseSymmetry(s: Session, run: seq<Event>, e: Event)
    requires Arrived(s) && ValidRun(s, run) && Enabled(Final(s, run), e)
    ensures var before, after := Final(s, run), Step(Final(s, run), e);
            && Symmetric(before) && Symmetric(after)
            && (ReturnsDone(before, e) <==> !after.Open(Client) && !after.Open(Server))
            && (before.Open(Client) || before.Open(Server))
  {
    ArrivedInv(s);
    RunKeepsInv(s, run);
    StepKeepsInv(Final(s, run), e);
  }

  /** The event is the end of direction `dir`: end of stream or an error where it
      starts, or an error where it leads to. */
  predicate Ends(e: Event, dir: Side) {
    match e
    case Readable(side, r) => side == dir && (r.RecvFailed? || r.bytes == [])
    case Writable(side, r) => side == dir.Other() && r.SendFailed?
  }

  predicate Ended(run: seq<Event>, dir: Side) {
    exists k :: 0 <= k < |run| && Ends(run[k], dir)
  }

  /** One event closes exactly the direction that it is the end of. */
  lemma OpenUnlessEnded(s: Session, e: Event, dir: Side)
    requires Inv(s) && Enabled(s, e)
    ensures Step(s, e).Open(dir) <==> s.Open(dir) && !Ends(e, dir)
  {
    var side := e.side;
    if e.Readable? {
      var t := if e.recv.RecvFailed? || e.recv.bytes == [] then EndRead(s, side)
               else s.WithPipe(side, s.Pipe(side).Put(e.recv.bytes));
      CheckBothKeeps(t, side);
    } else {
      var t := if e.send.SendFailed? then EndWrite(s, side)
               else s.(bytesSent := AddBytesSent(s.bytesSent, e.send.n))
                     .WithPipe(side.Other(), s.Pipe(side.Other()).Take(e.send.n));
      CheckBothKeeps(t, side);
    }
  }

  lemma {:induction false} RunOpenUnlessEnded(s: Session, run: seq<Event>, dir: Side)
    requires Inv(s) && ValidRun(s, run)
    ensures Final(s, run).Open(dir) <==> s.Open(dir) && !Ended(run, dir)
    decreases |run|
  {
    if run != [] {
      StepKeepsInv(s, run[0]);
      OpenUnlessEnded(s, run[0], dir);
      RunOpenUnlessEnded(Step(s, run[0]), run[1..], dir);
      assert forall k :: 0 <= k < |run| - 1 ==> run[1..][k] == run[k + 1];
      if Ended(run, dir) && !Ends(run[0], dir) {
        var k :| 0 <= k < |run| && Ends(run[k], dir);
        assert Ends(run[1..][k - 1], dir);
      }
    }
  }

  /** Over whole runs from arrival: a direction is open exactly while no event was
      its end, and the next event is answered with DONE exactly when both
      directions have had theirs. */
  lemma DoneExactly(s: Session, run: seq<Event>, e: Event)
    requires Arrived(s) && ValidRun(s, run) && Enabled(Final(s, run), e)
    ensures forall dir: Side :: Final(s, run).Open(dir) <==> !Ended(run, dir)
    ensures ReturnsDone(Final(s, run), e) <==> forall dir: Side :: Ended(run, dir) || Ends(e, dir)
  {
    ArrivedInv(s);
    RunKeepsInv(s, run);
    StepKeepsInv(Final(s, run), e);
    forall dir: Side
      ensures Final(s, run).Open(dir) <==> !Ended(run, dir)
      ensures Step(Final(s, run), e).Open(dir) <==> !Ended(run, dir) && !Ends(e, dir)
    {
      RunOpenUnlessEnded(s, run, dir);
      OpenUnlessEnded(Final(s, run), e, dir);
    }
  }

  /** Closing from a symmetric state keeps the symmetry exactly when the peer is
      connected: the session can reach COPY with the origin descriptor still -1. */
  lemma SymmetryNeedsThePeer(s: Session, e: Event)
    requires Symmetric(s) && InterestWithinDuplex(s) && Enabled(s, e)
    ensures Symmetric(Step(s, e)) <==>
            s.At(e.side.Other()).fd != -1 ||
            (e.Readable? && e.recv.Got? && e.recv.bytes != []) || (e.Writable? && e.send.Sent?)
  {
    var t := Step(s, e);
    assert e.Readable? ==> s.At(e.side).duplex.read && s.At(e.side.Other()).duplex.write;
    assert e.Writable? ==> s.At(e.side).duplex.write && s.At(e.side.Other()).duplex.read;
    assert e.side.Other().Other() == e.side;
    if s.At(e.side.Other()).fd == -1 && e.Readable? && (e.recv.RecvFailed? || e.recv.bytes == []) {
      assert !t.At(e.side).duplex.read && t.At(e.side.Other()).duplex.write;
    }
    if s.At(e.side.Other()).fd == -1 && e.Writable? && e.send.SendFailed? {
      assert !t.At(e.side).duplex.write && t.At(e.side.Other()).duplex.read;
    }
  }

  /** Such a session: the client ends its stream while the origin is not connected. */
  lemma AsymmetryWithoutPeer()
    ensures var s := Entering(Empty(SESSION_BUFFER)).(server := End(-1, READ_WRITE, NOOP));
            && Symmetric(s) && Enabled(s, Readable(Client, Got([])))
            && !Symmetric(Step(s, Readable(Client, Got([]))))
  {
  }

  // ---------------------------------------------------------------------------
  // No stall

  /** After every step: an end waits to read exactly while its direction is open
      and has room, it waits to write exactly while the direction is open and holds
      bytes, and so each open direction has an end that waits for something it can do. */
  lemma NoStall(s: Session, run: seq<Event>)
    requires Arrived(s) && ValidRun(s, run) && run != []
    ensures var t := Final(s, run);
            && Settled(t)
            && (forall dir: Side :: t.Open(dir) ==> t.At(dir).interest.read || t.At(dir.Other()).interest.write)
            && (forall dir: Side :: t.At(dir).interest.read <==> t.Open(dir) && t.Pipe(dir).Room() > 0)
            && (forall dir: Side :: t.At(dir.Other()).interest.write <==> t.Open(dir) && t.Pipe(dir).contents != [])
  {
    ArrivedInv(s);
    RunKeepsInv(s, run);
    var t := Final(s, run);
    assert t.client.interest == t.At(Client).interest == Wanted(t, Client);
    assert t.server.interest == t.At(Server).interest == Wanted(t, Server);
    assert t.client.duplex.read == t.At(Client).duplex.read == t.At(Server).duplex.write;
    assert t.server.duplex.read == t.At(Server).duplex.read == t.At(Client).duplex.write;
  }

  /** On arrival interests are inherited from the request phase, so a read event
      may find no room. A read can take bytes exactly when there is room; without
      room recv is asked for 0 bytes and every outcome closes the direction. */
  lemma ReadNeedsRoom(s: Session, side: Side)
    requires s.At(side).fd != -1 && s.At(side).interest.read
    ensures (exists bytes :: bytes != [] && Enabled(s, Readable(side, Got(bytes)))) <==> s.Pipe(side).Room() > 0
    ensures s.Pipe(side).Room() == 0 ==>
              forall r: RecvResult :: Enabled(s, Readable(side, r)) ==> !CopyRead(s, side, r).Open(side)
  {
    if s.Pipe(side).Room() > 0 {
      assert Enabled(s, Readable(side, Got([0])));
    }
  }

  /** A session that enters COPY with the client's leftover bytes: both ends wait
      to read, as the request phase left them. */
  function Entering(input: Queue): Session {
    Session(End(5, READ_WRITE, READ_ONLY), End(6, READ_WRITE, READ_ONLY), input, Empty(SESSION_BUFFER), 0)
  }

  /** It happens: one recv fills the session's buffer with an IPv4 request and 90
      bytes sent ahead. The request parser takes the request, and COPY starts with
      read interest and no room. */
  lemma {:induction false} ArrivalMayLackRoom(n: nat, i: nat, f: Request.Fields, ahead: seq<byte>)
    requires f.Valid() && f.atyp == Request.IPV4 && |ahead| == SESSION_BUFFER - 10
    ensures var text := Request.Encode(f) + ahead;
            var (p, rest) := Consume(Request.Feed, Request.Done, Request.Initialised(n, i), text);
            var s := Entering(Empty(SESSION_BUFFER).Put(text).Take(|text| - |rest|));
            && |text| == SESSION_BUFFER && p.state == Request.Finished && s.input.contents == ahead
            && Arrived(s) && s.client.interest.read && s.Pipe(Client).Room() == 0
  {
    var text := Request.Encode(f) + ahead;
    Request.ParsesRequest(n, i, f, ahead);
    assert Empty(SESSION_BUFFER).Put(text).contents == text;
    assert text[10..] == ahead;
  }

  /** Bytes still buffered when their direction closes are never delivered: a
      closed direction has carried everything exactly when its buffer is empty. */
  lemma TruncationOnClose(s: Session, run: seq<Event>, rest: seq<Event>, dir: Side)
    requires Inv(s) && ValidRun(s, run) && !Final(s, run).Open(dir) && ValidRun(Final(s, run), rest)
    ensures Delivered(s, run, dir) + Delivered(Final(s, run), rest, dir) ==
            s.Pipe(dir).contents + Received(run, dir) + Received(rest, dir)
            <==> Final(s, run).Pipe(dir).contents == []
  {
    RelayConservation(s, run, dir);
    RunKeepsInv(s, run);
    ClosedStaysSilent(Final(s, run), rest, dir);
    var d, p := Delivered(s, run, dir), Final(s, run).Pipe(dir).contents;
    assert d + [] == d && (d + p) + [] == d + p;
    assert |d + p| == |d| + |p|;
  }

  /** It happens: a byte is received, and the end of the stream before it is sent. */
  lemma TruncationHappens(b: byte, rest: seq<Event>)
    ensures var s, run := Entering(Empty(SESSION_BUFFER)), [Readable(Client, Got([b])), Readable(Client, Got([]))];
            && Arrived(s) && ValidRun(s, run) && Received(run, Client) == [b] && Delivered(s, run, Client) == []
            && (ValidRun(Final(s, run), rest) ==> Delivered(Final(s, run), rest, Client) == [])
  {
    var s, got, end := Entering(Empty(SESSION_BUFFER)), Readable(Client, Got([b])), Readable(Client, Got([]));
    var run := [got, end];
    assert run[1..] == [end] && [end][1..] == [];
    var t := Step(s, got);
    StepConserves(s, got, Client);
    StepKeepsInv(s, got);
    assert t.Pipe(Client).contents == [b] && t.Open(Client) && t.Open(Server);
    StepKeepsInv(t, end);
    assert !Step(t, end).Open(Client);
    assert ValidRun(t, [end]) && Final(t, [end]) == Step(t, end);
    Prepend(t, end, [], Client);
    assert [end] + [] == [end];
    Prepend(s, got, [end], Client);
    assert [got] + [end] == run;
    ArrivedInv(s);
    RunKeepsInv(s, run);
    if ValidRun(Final(s, run), rest) {
      ClosedStaysSilent(Final(s, run), rest, Client);
    }
  }

  lemma Prepend(s: Session, e: Event, rest: seq<Event>, dir: Side)
    requires Enabled(s, e) && (ReturnsDone(s, e) ==> rest == []) && ValidRun(Step(s, e), rest)
    ensures ValidRun(s, [e] + rest)
    ensures Received([e] + rest, dir) == StepReceived(e, dir) + Received(rest, dir)
    ensures Delivered(s, [e] + rest, dir) == StepDelivered(s, e, dir) + Delivered(Step(s, e), rest, dir)
  {
    var run := [e] + rest;
    assert run[0] == e && run[1..] == rest;
  }

  lemma SendAll(s: Session, dir: Side) returns (e: Event)
    requires Inv(s) && Settled(s) && s.Open(dir) && s.Pipe(dir).contents != []
    ensures Enabled(s, e) && Inv(Step(s, e)) && Settled(Step(s, e)) && !ReturnsDone(s, e)
    ensures Step(s, e).Open(dir) && Step(s, e).Pipe(dir).contents == []
    ensures StepReceived(e, dir) == [] && StepDelivered(s, e, dir) == s.Pipe(dir).contents
  {
    e := Writable(dir.Other(), Sent(|s.Pipe(dir).contents|));
    StepKeepsInv(s, e);
    WriteConserves(s, e, dir);
  }

  lemma ReceiveOne(s: Session, dir: Side, b: byte) returns (e: Event)
    requires Inv(s) && Settled(s) && s.Open(dir) && s.Pipe(dir).contents == []
    ensures Enabled(s, e) && Inv(Step(s, e)) && Settled(Step(s, e)) && !ReturnsDone(s, e)
    ensures Step(s, e).Open(dir) && Step(s, e).Pipe(dir).contents == [b]
    ensures StepReceived(e, dir) == [b] && StepDelivered(s, e, dir) == []
  {
    e := Readable(dir, Got([b]));
    StepKeepsInv(s, e);
    ReadConserves(s, e, dir);
  }

  /** Whatever the state after a step, an open direction can still carry any
      stream to its end: no reachable state leaves it stuck. */
  lemma {:induction false} OpenDirectionCanCarry(s: Session, dir: Side, stream: seq<byte>) returns (run: seq<Event>)
    requires Inv(s) && Settled(s) && s.Open(dir)
    ensures ValidRun(s, run) && Received(run, dir) == stream
    ensures Delivered(s, run, dir) == s.Pipe(dir).contents + stream
    decreases |stream|, |s.Pipe(dir).contents|
  {
    if s.Pipe(dir).contents != [] {
      var e := SendAll(s, dir);
      var rest := OpenDirectionCanCarry(Step(s, e), dir, stream);
      Prepend(s, e, rest, dir);
      run := [e] + rest;
    } else if stream != [] {
      var e := ReceiveOne(s, dir, stream[0]);
      var rest := OpenDirectionCanCarry(Step(s, e), dir, stream[1..]);
      Prepend(s, e, rest, dir);
      run := [e] + rest;
    } else {
      run := [];
    }
  }
}
