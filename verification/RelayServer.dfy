/** All relay sessions of the process share the byte counter of src/stadistics.c:
    what it shows after any interleaving of their steps. */
module RelayServer {
  import opened Statistics
  import R = Relay

  datatype Proxy = Proxy(sessions: map<nat, R.Session>, bytesSent: nat)

  datatype Event = Enter(id: nat, session: R.Session) | Copy(id: nat, event: R.Event)

  /** A session as its handlers see it, with the counter of the process. */
  function Seen(p: Proxy, id: nat): R.Session
    requires id in p.sessions
  {
    p.sessions[id].(bytesSent := p.bytesSent)
  }

  predicate Enabled(p: Proxy, e: Event) {
    match e
    case Enter(id, session) => id !in p.sessions && R.Arrived(session)
    case Copy(id, event) => id in p.sessions && R.Enabled(Seen(p, id), event)
  }

  /** A session that answers DONE leaves COPY. */
  function Step(p: Proxy, e: Event): Proxy
    requires Enabled(p, e)
  {
    match e
    case Enter(id, session) => p.(sessions := p.sessions[id := session])
    case Copy(id, event) =>
      var t := R.Step(Seen(p, id), event);
      Proxy(if R.ReturnsDone(Seen(p, id), event) then p.sessions - {id} else p.sessions[id := t], t.bytesSent)
  }

  /** Bytes that send accepted in one step, in either direction. */
  function StepDelivered(p: Proxy, e: Event): nat
    requires Enabled(p, e)
  {
    if e.Enter? then 0
    else |R.StepDelivered(Seen(p, e.id), e.event, R.Client)| + |R.StepDelivered(Seen(p, e.id), e.event, R.Server)|
  }

  predicate ValidRun(p: Proxy, run: seq<Event>)
    decreases |run|
  {
    run == [] || (Enabled(p, run[0]) && ValidRun(Step(p, run[0]), run[1..]))
  }

  function Final(p: Proxy, run: seq<Event>): Proxy
    requires ValidRun(p, run)
    decreases |run|
  {
    if run == [] then p else Final(Step(p, run[0]), run[1..])
  }

  function Delivered(p: Proxy, run: seq<Event>): nat
    requires ValidRun(p, run)
    decreases |run|
  {
    if run == [] then 0 else StepDelivered(p, run[0]) + Delivered(Step(p, run[0]), run[1..])
  }

  lemma StepCounts(p: Proxy, e: Event)
    requires Enabled(p, e)
    ensures Step(p, e).bytesSent == AddBytesSent(p.bytesSent, StepDelivered(p, e))
  {
  }

  /** Over every interleaving of any number of sessions, the counter equals what
      all of them delivered exactly while the sum stays below the cap; otherwise it
      undercounts and never reaches the cap. */
  lemma {:induction false} CounterTracksAllSessions(p: Proxy, run: seq<Event>)
    requires ValidRun(p, run) && p.bytesSent < UINT32_MAX
    ensures p.bytesSent <= Final(p, run).bytesSent < UINT32_MAX
    ensures Final(p, run).bytesSent <= p.bytesSent + Delivered(p, run)
    ensures Final(p, run).bytesSent == p.bytesSent + Delivered(p, run) <==> p.bytesSent + Delivered(p, run) < UINT32_MAX
    decreases |run|
  {
    if run != [] {
      StepCounts(p, run[0]);
      CounterTracksAllSessions(Step(p, run[0]), run[1..]);
    }
  }
}
