/** The state-machine engine of src/stm/stm.c, for any table: which arrival and
    departure callbacks a sequence of events produces. */
module Stm {

  datatype Current = NotStarted | At(state: nat)

  /** A call of on_arrival or on_departure; states without one just skip it. */
  datatype Callback = Arrive(state: nat) | Depart(state: nat)

  datatype Machine = Machine(initial: nat, maxState: nat, current: Current, calls: seq<Callback>) {

    /** stm_init checks the table and the initial state. */
    predicate Valid() {
      initial < maxState && (current.At? ==> current.state <= maxState)
    }

    /** stm_state. */
    function State(): nat {
      if current.At? then current.state else initial
    }
  }

  function Started(m: Machine): Machine {
    if m.current.NotStarted? then m.(current := At(m.initial), calls := m.calls + [Arrive(m.initial)]) else m
  }

  /** jump; its abort() is reached exactly for a state beyond the table. */
  predicate JumpAborts(m: Machine, next: nat) {
    next > m.maxState
  }

  function Jumped(m: Machine, next: nat): Machine
    requires !JumpAborts(m, next)
  {
    if m.current == At(next) then m
    else m.(current := At(next),
            calls := m.calls + (if m.current.At? then [Depart(m.current.state)] else []) + [Arrive(next)])
  }

  /** One event whose handler answers `next`. */
  function Handled(m: Machine, next: nat): Machine
    requires next <= m.maxState
  {
    Jumped(Started(m), next)
  }

  function HandleAll(m: Machine, answers: seq<nat>): (r: Machine)
    requires forall i :: 0 <= i < |answers| ==> answers[i] <= m.maxState
    ensures r.initial == m.initial && r.maxState == m.maxState
    decreases |answers|
  {
    if answers == [] then m else HandleAll(Handled(m, answers[0]), answers[1..])
  }

  /** After an arrival comes the departure from that state, after a departure
      the arrival at another state. */
  predicate InTurn(calls: seq<Callback>, k: nat) {
    k + 1 < |calls| ==>
      if k % 2 == 0 then calls[k].Arrive? && calls[k + 1] == Depart(calls[k].state)
      else calls[k].Depart? && calls[k + 1].Arrive? && calls[k + 1].state != calls[k].state
  }

  /** Visits open and close strictly in turn, and the current one is open. */
  predicate Alternates(m: Machine) {
    match m.current
    case NotStarted => m.calls == []
    case At(state) =>
      && |m.calls| % 2 == 1 && m.calls[|m.calls| - 1] == Arrive(state) && m.calls[0] == Arrive(m.initial)
      && forall k :: 0 <= k < |m.calls| ==> InTurn(m.calls, k)
  }

  /** stm_handler_close: the departure of the current state, without leaving it. */
  function Close(m: Machine): seq<Callback> {
    m.calls + if m.current.At? then [Depart(m.current.state)] else []
  }

  lemma StartAlternates(m: Machine)
    requires Alternates(m) && m.Valid()
    ensures Alternates(Started(m)) && Started(m).Valid() && Started(m).current.At?
  {
  }

  /** Leaving one state for another adds exactly one departure and one arrival. */
  lemma JumpAlternates(m: Machine, next: nat)
    requires Alternates(m) && m.Valid() && m.current.At? && !JumpAborts(m, next)
    ensures Alternates(Jumped(m, next)) && Jumped(m, next).Valid() && Jumped(m, next).current == At(next)
  {
    if m.current != At(next) {
      var n, calls := |m.calls|, Jumped(m, next).calls;
      assert calls == m.calls + [Depart(m.current.state)] + [Arrive(next)];
      forall k | 0 <= k < |calls| ensures InTurn(calls, k) {
        assert k < n ==> InTurn(m.calls, k);
      }
    }
  }

  /** Every event keeps the callbacks in turn and ends in the state answered. */
  lemma HandleAlternates(m: Machine, next: nat)
    requires Alternates(m) && m.Valid() && !JumpAborts(m, next)
    ensures Alternates(Handled(m, next)) && Handled(m, next).Valid() && Handled(m, next).State() == next
  {
    StartAlternates(m);
    JumpAlternates(Started(m), next);
  }

  /** After any events: callbacks alternate, and the machine is in the state the
      last handler answered, or the initial one. */
  lemma {:induction false} RunAlternates(m: Machine, answers: seq<nat>)
    requires Alternates(m) && m.Valid() && forall i :: 0 <= i < |answers| ==> answers[i] <= m.maxState
    ensures Alternates(HandleAll(m, answers)) && HandleAll(m, answers).Valid()
    ensures answers != [] ==> HandleAll(m, answers).State() == answers[|answers| - 1]
    decreases |answers|
  {
    if answers != [] {
      HandleAlternates(m, answers[0]);
      RunAlternates(Handled(m, answers[0]), answers[1..]);
    }
  }

  lemma {:induction false} HandleInTurn(m: Machine, a: seq<nat>, b: seq<nat>)
    requires forall i :: 0 <= i < |a + b| ==> (a + b)[i] <= m.maxState
    requires (forall i :: 0 <= i < |a| ==> a[i] <= m.maxState) && forall i :: 0 <= i < |b| ==> b[i] <= m.maxState
    ensures HandleAll(m, a + b) == HandleAll(HandleAll(m, a), b)
    decreases |a|
  {
    if a == [] {
      assert a + b == b;
    } else {
      assert (a + b)[1..] == a[1..] + b && (a + b)[0] == a[0];
      HandleInTurn(Handled(m, a[0]), a[1..], b);
    }
  }

  /** A whole visit: the arrival at a state and the departure from it. */
  predicate VisitAt(calls: seq<Callback>, k: nat) {
    k + 1 < |calls| && calls[k].Arrive? && calls[k + 1] == Depart(calls[k].state)
  }

  predicate WholeVisits(calls: seq<Callback>) {
    forall k :: 0 <= k < |calls| && k % 2 == 0 ==> VisitAt(calls, k)
  }

  lemma CloseCompletesVisits(m: Machine)
    requires Alternates(m)
    ensures WholeVisits(Close(m))
  {
    var calls := Close(m);
    forall k | 0 <= k < |calls| && k % 2 == 0 ensures VisitAt(calls, k) {
      assert InTurn(m.calls, k);
    }
  }

  /** Closing after any events from the start completes the last visit. */
  lemma ClosedRunIsWholeVisits(initial: nat, maxState: nat, answers: seq<nat>)
    requires initial < maxState && forall i :: 0 <= i < |answers| ==> answers[i] <= maxState
    ensures WholeVisits(Close(HandleAll(Machine(initial, maxState, NotStarted, []), answers)))
  {
    RunAlternates(Machine(initial, maxState, NotStarted, []), answers);
    CloseCompletesVisits(HandleAll(Machine(initial, maxState, NotStarted, []), answers));
  }

  /** The table check of stm_init: false is its abort(). */
  method TableInOrder(states: seq<nat>, initial: nat, maxState: nat) returns (ok: bool)
    requires maxState < |states|
    ensures ok <==> initial < maxState && forall i :: 0 <= i <= maxState ==> states[i] == i
  {
    for i := 0 to maxState + 1
      invariant forall j :: 0 <= j < i ==> states[j] == j
    {
      if i != states[i] {
        return false;
      }
    }
    return initial < maxState;
  }

  class StateMachine {
    const initial: nat
    const maxState: nat
    var current: Current
    var calls: seq<Callback>

    ghost function View(): Machine
      reads this
    {
      Machine(initial, maxState, current, calls)
    }

    constructor (initial: nat, maxState: nat)
      requires initial < maxState
      ensures View() == Machine(initial, maxState, NotStarted, []) && Alternates(View())
    {
      this.initial, this.maxState := initial, maxState;
      current, calls := NotStarted, [];
    }

    /** stm_state. */
    method State() returns (ret: nat)
      ensures ret == View().State()
    {
      ret := initial;
      if current.At? {
        ret := current.state;
      }
    }

    method HandleFirst()
      modifies this
      ensures View() == Started(old(View()))
    {
      if current.NotStarted? {
        current := At(initial);
        calls := calls + [Arrive(initial)];
      }
    }

    method Jump(next: nat)
      requires !JumpAborts(View(), next)
      modifies this
      ensures View() == Jumped(old(View()), next)
    {
      if current != At(next) {
        if current.At? {
          calls := calls + [Depart(current.state)];
        }
        current := At(next);
        calls := calls + [Arrive(next)];
      }
    }

    /** stm_handler_read, _write and _block, for a handler that answers `next`. */
    method Handle(next: nat) returns (ret: nat)
      requires View().Valid() && Alternates(View()) && !JumpAborts(View(), next)
      modifies this
      ensures View() == Handled(old(View()), next) && ret == next
      ensures View().Valid() && Alternates(View())
    {
      HandleAlternates(View(), next);
      HandleFirst();
      Jump(next);
      ret := next;
    }
  }
}
